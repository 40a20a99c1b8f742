/** The character-matching state machine of a generated lexer's base class:
    matchers that compare the lookahead with an expectation and either consume
    or report a mismatch, error recovery, and the two ways of emitting a token.

    The lexer's mutable state (its input stream and its current token) is a
    value here; every operation returns the new state. The source's exceptions
    become a MatchResult carried next to that state. */
module Lexers {

  import opened Wrappers
  import opened CharStreams
  import Intervals

  /** The six values a token is built from when the lexer emits one. */
  datatype Token = Token(tokenType: int, channel: int, start: int, stop: int,
                         line: int, charPositionInLine: int)

  datatype Lexer = Lexer(input: CharStream, token: Option<Token>)

  /** Ok, or the exception a matcher throws. */
  datatype MatchResult =
    | Ok
    | MismatchedToken(expecting: int)
    | MismatchedRange(a: int, b: int)

  /** What a matcher reports, with the lexer state it leaves behind. */
  datatype Step = Step(result: MatchResult, lexer: Lexer)

  /** after is before with only the input cursor moved on by n. */
  predicate Advanced(before: Lexer, after: Lexer, n: nat)
  {
    after == before.(input := before.input.(p := before.input.p + n))
  }

  /** The first n characters of s are the next n elements of the input. */
  ghost predicate AgreesUpTo(st: CharStream, s: string, n: nat)
    requires n <= |s|
  {
    forall k :: 0 <= k < n ==> Peek(st, k) == s[k] as int
  }

  /** The next |s| elements of the input spell s. */
  ghost predicate NextCharsAre(st: CharStream, s: string)
  {
    AgreesUpTo(st, s, |s|)
  }

  /** i is the first position at which the input disagrees with s. */
  ghost predicate FirstMismatchAt(st: CharStream, s: string, i: nat)
  {
    i < |s| && AgreesUpTo(st, s, i) && Peek(st, i) != s[i] as int
  }

  // ---------------------------------------------------------------------------
  // Emitting tokens
  // ---------------------------------------------------------------------------

  /** emit(token): the given token becomes the current token; the input is untouched. */
  function Emit(lx: Lexer, t: Token): (r: Lexer)
    ensures r.token == Some(t)
    ensures r.input == lx.input
  {
    lx.(token := Some(t))
  }

  /** emit(type, line, charPosition, channel, start, stop): builds a token from
      the six values and emits it. */
  function EmitFields(lx: Lexer, tokenType: int, line: int, charPosition: int,
                      channel: int, start: int, stop: int): (r: Lexer)
    ensures r.input == lx.input
    ensures r.token.Some?
    ensures r.token.value.tokenType == tokenType && r.token.value.channel == channel
    ensures r.token.value.start == start && r.token.value.stop == stop
    ensures r.token.value.line == line && r.token.value.charPositionInLine == charPosition
  {
    var t := Token(tokenType, channel, start, stop, 0, 0);
    var t := t.(line := line);
    var t := t.(charPositionInLine := charPosition);
    Emit(lx, t)
  }

  // ---------------------------------------------------------------------------
  // Matchers
  // ---------------------------------------------------------------------------

  /** match(s), as a definition by recursion on s: compare and consume one
      character at a time; stop at the first mismatch without giving back what
      was consumed. */
  function MatchPrefix(lx: Lexer, s: string): (r: Step)
    ensures r.result.Ok? || r.result.MismatchedToken?
    ensures lx.input.p <= r.lexer.input.p <= lx.input.p + |s|
    ensures Advanced(lx, r.lexer, r.lexer.input.p - lx.input.p)
    ensures r.result.Ok? <==> NextCharsAre(lx.input, s)
    ensures r.result.Ok? ==> r.lexer.input.p == lx.input.p + |s|
    ensures !r.result.Ok? ==>
              var i := r.lexer.input.p - lx.input.p;
              FirstMismatchAt(lx.input, s, i) && r.result == MismatchedToken(s[i] as int)
    decreases |s|
  {
    if |s| == 0 then
      Step(Ok, lx)
    else if LA1(lx.input) != s[0] as int then
      Step(MismatchedToken(s[0] as int), lx)
    else
      MatchPrefix(lx.(input := Consume(lx.input)), s[1..])
  }

  /** match(String s): the loop of the source, consuming as it goes. */
  method Match(lx: Lexer, s: string) returns (r: Step)
    ensures r == MatchPrefix(lx, s)
  {
    var i := 0;
    var cur := lx;
    while i < |s|
      invariant 0 <= i <= |s|
      invariant Advanced(lx, cur, i)
      invariant MatchPrefix(lx, s) == MatchPrefix(cur, s[i..])
    {
      if LA1(cur.input) != s[i] as int {
        return Step(MismatchedToken(s[i] as int), cur);
      }
      assert s[i..][1..] == s[i + 1..];
      i := i + 1;
      cur := cur.(input := Consume(cur.input));
    }
    r := Step(Ok, cur);
  }

  /** matchAny(): consume whatever is under the cursor; never fails. */
  function MatchAny(lx: Lexer): (r: Lexer)
    ensures Advanced(lx, r, 1)
  {
    lx.(input := Consume(lx.input))
  }

  /** match(int c): consume one element if it is c; otherwise report c as
      expected and leave the state as it was. */
  function MatchChar(lx: Lexer, c: int): (r: Step)
    ensures r.result.Ok? <==> LA1(lx.input) == c
    ensures r.result.Ok? ==> Advanced(lx, r.lexer, 1)
    ensures !r.result.Ok? ==> r == Step(MismatchedToken(c), lx)
  {
    if LA1(lx.input) != c then
      Step(MismatchedToken(c), lx)
    else
      Step(Ok, lx.(input := Consume(lx.input)))
  }

  /** matchRange(a, b): consume one element if it lies in a..b; otherwise
      report the range and leave the state as it was. An empty range (a > b)
      never matches. */
  function MatchRange(lx: Lexer, a: int, b: int): (r: Step)
    ensures r.result.Ok? <==> Intervals.Contains(Intervals.Interval(a, b), LA1(lx.input))
    ensures r.result.Ok? ==> Advanced(lx, r.lexer, 1)
    ensures !r.result.Ok? ==> r == Step(MismatchedRange(a, b), lx)
    ensures a > b ==> !r.result.Ok?
  {
    if LA1(lx.input) < a || LA1(lx.input) > b then
      Step(MismatchedRange(a, b), lx)
    else
      Step(Ok, lx.(input := Consume(lx.input)))
  }

  /** recover(): skip the offending element; never fails. */
  function Recover(lx: Lexer): (r: Lexer)
    ensures Advanced(lx, r, 1)
  {
    lx.(input := Consume(lx.input))
  }

  // ---------------------------------------------------------------------------
  // Lemmas
  // ---------------------------------------------------------------------------

  /** Emitting twice keeps only the last token; emit(type, ...) is emit of the token built from its arguments. */
  lemma EmitLastWins(lx: Lexer, t1: Token, t2: Token, tokenType: int, line: int, charPosition: int,
                     channel: int, start: int, stop: int)
    ensures Emit(Emit(lx, t1), t2) == Emit(lx, t2)
    ensures EmitFields(lx, tokenType, line, charPosition, channel, start, stop)
            == Emit(lx, Token(tokenType, channel, start, stop, line, charPosition))
  {
  }

  /** match("") succeeds and leaves the state unchanged. */
  lemma MatchEmpty(lx: Lexer)
    ensures MatchPrefix(lx, "") == Step(Ok, lx)
  {
  }

  /** Once s has matched, matching s + t goes on to match t from where s left off. */
  lemma {:induction false} MatchConcatAfterMatch(lx: Lexer, s: string, t: string)
    requires MatchPrefix(lx, s).result.Ok?
    ensures MatchPrefix(lx, s + t) == MatchPrefix(MatchPrefix(lx, s).lexer, t)
    decreases |s|
  {
    if |s| == 0 {
      assert s + t == t;
    } else {
      assert (s + t)[0] == s[0];
      assert (s + t)[1..] == s[1..] + t;
      MatchConcatAfterMatch(lx.(input := Consume(lx.input)), s[1..], t);
    }
  }

  /** A mismatch inside s stops matching s + t at the same place, before t is looked at. */
  lemma MatchConcatAfterMismatch(lx: Lexer, s: string, t: string)
    requires !MatchPrefix(lx, s).result.Ok?
    ensures MatchPrefix(lx, s + t) == MatchPrefix(lx, s)
  {
  }

  /** match(String) on a one-character string behaves exactly as match(int) on that character. */
  lemma MatchSingleChar(lx: Lexer, c: char)
    ensures MatchPrefix(lx, [c]) == MatchChar(lx, c as int)
  {
  }

  /** matchRange(c, c) consumes exactly when match(c) does and leaves the same state. */
  lemma MatchRangeSingleton(lx: Lexer, c: int)
    ensures MatchRange(lx, c, c).result.Ok? <==> MatchChar(lx, c).result.Ok?
    ensures MatchRange(lx, c, c).lexer == MatchChar(lx, c).lexer
  {
  }

  /** matchAny and recover are match(LA(1)): they consume whatever is under the cursor. */
  lemma MatchAnyIsMatchOfLookahead(lx: Lexer)
    ensures MatchChar(lx, LA1(lx.input)) == Step(Ok, MatchAny(lx))
    ensures Recover(lx) == MatchAny(lx)
  {
  }
}

/** The character input a lexer reads, abstracted as its contents plus a cursor.

    Only the two operations the lexer uses are modelled: looking at the element
    under the cursor and consuming it. The stream's own end-of-input behaviour
    is not modelled beyond this: every position at or past the end of `data`
    yields the caller-chosen value `eof`, and consuming always moves the cursor
    on by one. */
module CharStreams {

  datatype CharStream = CharStream(data: seq<int>, eof: int, p: nat)

  /** The element k places ahead of the cursor (k = 0 is the cursor itself). */
  function Peek(st: CharStream, k: nat): int
  {
    if st.p + k < |st.data| then st.data[st.p + k] else st.eof
  }

  /** LA(1): the element under the cursor. */
  function LA1(st: CharStream): int
  {
    Peek(st, 0)
  }

  /** consume(): move the cursor past the current element. The window of
      lookahead shifts by one and nothing else changes. */
  function Consume(st: CharStream): (r: CharStream)
    ensures r.data == st.data && r.eof == st.eof && r.p == st.p + 1
    ensures forall k: nat {:trigger Peek(r, k)} :: Peek(r, k) == Peek(st, k + 1)
  {
    st.(p := st.p + 1)
  }
}

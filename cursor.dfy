/**
  The input cursor (`Input`). Its implementation is not part of this model:
  a cursor is the text that remains unconsumed, cloning it is copying the
  value, and tokenising is left to a `Head` function supplied by the caller.
*/
module Cursor {
  import opened Wrappers

  datatype Input = Input(rest: string) {
    /** `Input::empty` and `Input::is_empty`: nothing remains to be consumed. */
    predicate Empty() {
      |rest| == 0
    }
  }

  /** The separator the dispatcher passes to `head` when it matches a literal. */
  const Separator: string := " "

  /**
    `Input::head(separator)`: the next token and the cursor after it. Which
    cursor it leaves behind (advanced past the token or not) is a parameter
    of the model; the dispatcher only ever calls it on a clone.
  */
  type Head = (Input, string) -> (string, Input)

  /**
    A `ParserBase` implementation, in state-passing form: from the cursor
    it is handed, it yields an optional extracted value and the cursor as
    it left it, whether or not it succeeded.
  */
  type Parser<!E> = Input -> (Option<E>, Input)
}

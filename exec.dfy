/**
  The terminal combinator of `src/command/exec.rs`. `Exec` runs its inner
  parser and accepts only when that parser used up the whole input. It then
  pairs the extracted value with the command's handler in a `Command`.
  `Command::call` hands the value to that handler.

  A handler `fn(&mut C, E)` is written as a function from the context
  before the call to the context after it. Rust's one-element result tuple
  `(Command,)` is written as the `Command` itself.
*/
module CommandExec {
  import opened Wrappers
  import opened Cursor

  /** `Exec<P, C>`: the inner parser and the handler. */
  datatype Exec<!E, !C> = Exec(parser: Parser<E>, command: (C, E) -> C)

  /** `Command<E, C>`: the extracted value and the handler it will be given to. */
  datatype Command<!E, !C> = Command(extracted: E, command: (C, E) -> C)

  /**
    `Exec::parse`. It fails when the inner parser fails. It also fails when
    input remains after the inner parser. On success it pairs exactly the
    inner value with the same handler. In every case the cursor is left
    where the inner parser left it.
  */
  function Parse<E, C>(exec: Exec<E, C>, input: Input): (r: (Option<Command<E, C>>, Input))
    ensures r.1 == exec.parser(input).1
    ensures exec.parser(input).0.None? ==> r.0.None?
    ensures !exec.parser(input).1.Empty() ==> r.0.None?
    ensures r.0.Some? <==> exec.parser(input).0.Some? && exec.parser(input).1.Empty()
    ensures r.0.Some? ==> r.0.value == Command(exec.parser(input).0.value, exec.command)
    ensures r.0.Some? ==> r.1.Empty()
  {
    var (extracted, rest) := exec.parser(input);
    if extracted.None? then (None, rest)
    else if rest.Empty() then (Some(Command(extracted.value, exec.command)), rest)
    else (None, rest)
  }

  /** `Command::call`: one application of the stored handler to the stored value. */
  function Call<E, C>(command: Command<E, C>, ctx: C): (r: C)
  {
    command.command(ctx, command.extracted)
  }

  /**
    Parsing then calling runs the handler of the `Exec` once, on the value
    that its inner parser extracted.
  */
  lemma ParseThenCall<E, C>(exec: Exec<E, C>, input: Input, ctx: C)
    requires Parse(exec, input).0.Some?
    ensures exec.parser(input).0.Some?
    ensures Call(Parse(exec, input).0.value, ctx) == exec.command(ctx, exec.parser(input).0.value)
  {
  }

  /**
    With a handler that logs its argument, one `call` adds exactly one
    entry to the log, and that entry is the stored value.
  */
  lemma CallRunsHandlerOnce<E>(extracted: E, log: seq<E>)
    ensures Call(Command(extracted, (l: seq<E>, e: E) => l + [e]), log) == log + [extracted]
  {
  }
}

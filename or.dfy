/**
  The ordered alternative of `src/command/or.rs`. The first parser runs on
  a clone of the cursor. If it succeeds, its value is the result, tagged
  `A`. The clone is then dropped, so the caller's cursor does not advance.
  Otherwise the second parser runs on the caller's own cursor, and its
  value is tagged `B`. This model keeps that asymmetry as the source has
  it; `ParseCommitted` is the variant that commits the first branch's
  cursor.
*/
module CommandOr {
  import opened Wrappers
  import opened Cursor
  import CommandExec

  /** `Either<A, B>`: which side of the alternative succeeded. */
  datatype Either<A, B> = A(a: A) | B(b: B)

  /** `Or<T, U>`: the two alternatives, in order. */
  datatype Or<!A, !B> = Or(first: Parser<A>, second: Parser<B>)

  /**
    `Or::parse`. If the first parser succeeds on the clone, the result is
    its value, and the cursor is exactly the caller's. Otherwise the
    result and the cursor are those of the second parser. The result is
    `None` only when both parsers fail.
  */
  function Parse<A, B>(or: Or<A, B>, input: Input): (r: (Option<Either<A, B>>, Input))
    ensures or.first(input).0.Some? ==> r == (Some(A(or.first(input).0.value)), input)
    ensures or.first(input).0.None? ==> r.1 == or.second(input).1
    ensures or.first(input).0.None? ==> (r.0.Some? <==> or.second(input).0.Some?)
    ensures or.first(input).0.None? && r.0.Some? ==> r.0.value == B(or.second(input).0.value)
    ensures r.0.None? <==> or.first(input).0.None? && or.second(input).0.None?
  {
    var (first, _) := or.first(input);
    if first.Some? then (Some(A(first.value)), input)
    else
      var (second, rest) := or.second(input);
      (if second.Some? then Some(B(second.value)) else None, rest)
  }

  /**
    When the first parser succeeds, the second one is never consulted.
    Replacing it by any other parser changes nothing.
  */
  lemma SecondUnusedWhenFirstWins<A, B>(first: Parser<A>, second: Parser<B>, other: Parser<B>, input: Input)
    requires first(input).0.Some?
    ensures Parse(Or(first, second), input) == Parse(Or(first, other), input)
    ensures Parse(Or(first, second), input).0 == Some(A(first(input).0.value))
  {
  }

  /**
    The first attempt never moves the caller's cursor. Where it leaves its
    clone has no effect on the result: two first parsers with the same
    verdict give the same outcome.
  */
  lemma FirstCursorDiscarded<A, B>(first: Parser<A>, first': Parser<A>, second: Parser<B>, input: Input)
    requires first(input).0 == first'(input).0
    ensures Parse(Or(first, second), input) == Parse(Or(first', second), input)
    ensures Parse(Or(first, second), input).1 ==
            (if first(input).0.Some? then input else second(input).1)
  {
  }

  /** `Or` as a parser in its own right. */
  function AsParser<A, B>(or: Or<A, B>): (p: Parser<Either<A, B>>)
  {
    (input: Input) => Parse(or, input)
  }

  /**
    The consequence of the dropped clone. Say the first alternative
    consumes the whole, non-empty input. `Exec` over that alternative alone
    accepts the input. `Exec` over the `Or` rejects it, because the cursor
    `Or` returns still holds the input.
  */
  lemma ExecRejectsFirstBranch<A, B, C>(first: Parser<A>, second: Parser<B>, input: Input, value: A,
                                        handler: (C, A) -> C, handler': (C, Either<A, B>) -> C)
    requires first(input) == (Some(value), Input(""))
    requires !input.Empty()
    ensures CommandExec.Parse(CommandExec.Exec(first, handler), input).0.Some?
    ensures CommandExec.Parse(CommandExec.Exec(AsParser(Or(first, second)), handler'), input).0.None?
  {
    assert AsParser(Or(first, second))(input) == (Some(A(value)), input);
  }

  /**
    The alternative with the first branch committed: when the first parser
    succeeds, its cursor becomes the caller's. Everything else is as in
    `Parse`.
  */
  function ParseCommitted<A, B>(or: Or<A, B>, input: Input): (r: (Option<Either<A, B>>, Input))
    ensures or.first(input).0.Some? ==> r == (Some(A(or.first(input).0.value)), or.first(input).1)
    ensures or.first(input).0.None? ==> r == Parse(or, input)
  {
    var (first, advanced) := or.first(input);
    if first.Some? then (Some(A(first.value)), advanced) else Parse(or, input)
  }

  /**
    With the first branch committed, a first alternative that consumes the
    whole input completes an `Exec`, and the command carries its value.
  */
  lemma ExecAcceptsCommittedFirstBranch<A, B, C>(first: Parser<A>, second: Parser<B>, input: Input, value: A,
                                                 handler: (C, Either<A, B>) -> C)
    requires first(input) == (Some(value), Input(""))
    ensures var parser := (i: Input) => ParseCommitted(Or(first, second), i);
            CommandExec.Parse(CommandExec.Exec(parser, handler), input).0 == Some(CommandExec.Command(A(value), handler))
  {
    var parser := (i: Input) => ParseCommitted(Or(first, second), i);
    assert parser(input) == (Some(A(value)), Input(""));
  }
}

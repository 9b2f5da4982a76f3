/**
  The declared command trees that the builder hands to the dispatcher
  (`CommandNode`, `CommandNodeKind` and the `Command` trait of the crate
  root). The builder itself is not part of this model: trees are inputs.
  `K` stands for a boxed argument checker and `H` for a boxed handler.
*/
module CommandTree {
  import opened Wrappers

  /** `CommandNodeKind`: how a declared node matches a token. */
  datatype CommandNodeKind<K> = Literal(text: string) | Parser(checker: K)

  /** `CommandNode`: a kind, an optional handler and the sub-trees, in order. */
  datatype CommandNode<K, H> = CommandNode(kind: CommandNodeKind<K>, exec: Option<H>, next: seq<CommandNode<K, H>>)

  /** An `impl Command<C>`: its `meta()` and its `into_root_node()`. */
  datatype Command<K, H, M> = Command(meta: M, rootNode: CommandNode<K, H>)
}

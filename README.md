# lieutenant command dispatcher, modelled in Dafny

This project models the command-dispatch core of the `lieutenant` crate.

**Registration.** A `CommandDispatcher` keeps an append-only arena of nodes. Each node has an ordered list of child keys, a kind (`Literal(text)`, `Parser(checker)` or `Root`) and an optional handler. `register` records the command's metadata and then merges its declared node tree into the arena. Nodes that already exist are reused, so commands share common prefixes. The merge rejects:
- a handler on the root (`ExecutableRoot`);
- a second handler on one node (`OverlappingCommands`).

**Dispatch.** `dispatch` walks the arena from the root. At each node it tries the children in insertion order, each on a clone of the cursor. It commits to the first child that accepts and never backtracks. It succeeds only if the input runs out at a node with a handler; that handler receives the full command text.

**Combinators.** Two parser combinators are modelled too:
- `Exec` accepts only when its inner parser consumed everything.
- `Or` is an ordered alternative whose first branch runs on a discarded clone.

Files and modules:

- `wrappers.dfy`, module `Wrappers`: `Option` and `Outcome`, which stands for `Result<(), E>`.
- `cursor.dfy`, module `Cursor`: the cursor `Input` (the unconsumed text). It also holds the tokeniser type `Head` and the parser type `Parser<E>`, a cursor-to-(result, cursor) function.
- `command_tree.dfy`, module `CommandTree`: the declared trees handed to `register` (`CommandNodeKind`, `CommandNode`, and `Command` for the `meta()` / `into_root_node()` pair).
- `dispatcher.dfy`, module `Dispatcher`: a model of `src/dispatcher.rs`. It has two parts:
  - Pure reference functions over the arena `seq<Node>`: `MergeNode`/`MergeChildren` for `append_node`, and `Resolve`/`Dispatched` for `dispatch`. Lemmas about them sit alongside.
  - The class `CommandDispatcher`. It holds the fields that the source updates in place (`nodes`, `metas`). Its methods (`Register`, `AppendNode`, `Dispatch`) are imperative, and they are proved equal to the reference functions.
- `exec.rs` and `or.rs` become modules `CommandExec` and `CommandOr`, in state-passing form: a parser maps a cursor to its result and the cursor it leaves.
- `scenarios.dfy`, module `Scenarios`: concrete registrations showing prefix sharing, overlap rejection and rejection of trailing input.

Modelling choices:

- **Checkers.** A boxed checker is a value of a type parameter `K`. Its `equals` and `satisfies` come from a `Checkers<K>` value that the dispatcher is built with. A boxed handler is a value of type `H`, and `CommandMeta` is a type `M`.
- **Tokeniser.** `Input::head` is the `Head` parameter of `Dispatch`. The source only shows that it is called on a clone. Whether it advances past the token is left open.
- **Empty input.** `empty()` and `is_empty()` both mean that no characters remain.
- **Handlers attach to the parent.** `append_node` puts a declared node's handler on the arena node it is merging *under*, not on the node created for the declared kind. The model does the same. At the root this is what produces `ExecutableRoot`.
- **Dispatch terminates.** No fuel or progress assumption is needed. A new node always gets the next free key, so every child key is larger than its parent's, and each step moves to a larger key.
- **Metadata count.** `register` pushes the metadata before merging. So `command_meta()` has one entry per `register` call, failed or not, not one per successful registration.
- **Does `head` consume?** It could consume the token or merely peek at it; the code shown does not settle which, so `head` is a parameter.

Helpers with no row of their own:
- `Dispatcher.Matches` models the match on a child's kind (src/dispatcher.rs:84-88) and `Dispatcher.Attempt` applies it to one child.
- `Dispatcher.AsCommandKind` inverts `From`.
- `Dispatcher.MergeChildrenStep` unfolds one step of `MergeChildren` for the proofs about it.
- `Dispatcher.CommandDispatcher.CommandMeta` models `command_meta` (src/dispatcher.rs:109-111).
- `CommandExec.Call` models `Command::call`.
- `CommandOr.AsParser` is `Or` used as a parser.

## Model

| member | source | states |
|---|---|---|
| `Dispatcher.FromCommandKind` | src/dispatcher.rs:183-194 | A node created from a declared kind is never `Root`, and it keeps the kind it was declared with. |
| `Dispatcher.KindEq` | src/dispatcher.rs:202-213 | `Root` equals no declared kind, and kinds of different variants are never equal. Literals are equal iff their texts are; checkers are equal iff `equals` holds. |
| `Dispatcher.InitialArena` | src/dispatcher.rs:33-39 | The new arena is well formed. It holds exactly one node, the root: kind `Root`, no children, no handler. |
| `Dispatcher.FindChild` | src/dispatcher.rs:138-142 | Returns the position of the first child whose kind equals the declared kind, with every earlier child unequal. Returns `None` iff no child is equal. |
| `Dispatcher.FindOrInsert` | src/dispatcher.rs:134-155 | If an equal child exists, the first one is reused and the arena is unchanged. Otherwise, and only then, exactly one node of the declared kind is appended, and its key is pushed onto the parent's children. Either way the result is a well-formed extension with a child key above the parent's. |
| `Dispatcher.MergeNode` | src/dispatcher.rs:113-163 | Merging a declared tree keeps the arena well formed, whether it succeeds or fails. The arena only grows: kinds are kept, child lists grow at the end, and handlers are never replaced. What a successful merge adds is stated by `MergeEmbeds`. |
| `Dispatcher.MergeChildren` | src/dispatcher.rs:156-160 | Merging the sub-trees keeps the arena well formed and only grows it. Their order and the stop at the first error are stated by `MergeChildrenEmbeds` and `MergeChildrenStopsAtFirstError`. |
| `Dispatcher.EmbeddedExtends` | src/dispatcher.rs:113-163 | A declared tree that is present in an arena (`Embedded`: each handler on its parent node, each kind represented by a child of its parent) stays present in every extension of that arena. |
| `Dispatcher.MergeEmbeds` | src/dispatcher.rs:113-163 | After a successful merge the whole declared tree is in the arena. The tree's handler is on `current`. A child of `current` is equal to the tree's kind, or was built from it. Every sub-tree is present under that child, recursively. |
| `Dispatcher.MergeChildrenEmbeds` | src/dispatcher.rs:156-160 | After the sub-trees from position `i` on merge successfully, each sub-tree `j` at or after `i` is present under `found`. |
| `Dispatcher.MergeChildrenStopsAtFirstError` | src/dispatcher.rs:156-160 | When merging the sub-trees fails, there is a position `j` such that all sub-trees before `j` merged without error. The outcome and arena are exactly those of merging sub-tree `j` on top of them, so its error is returned and no later sub-tree is merged. |
| `Dispatcher.AppendNodeHandler` | src/dispatcher.rs:121-132 | A handler at the root gives `ExecutableRoot` and an unchanged arena. A handler at a node that already has one gives `OverlappingCommands`, an unchanged arena and the original handler. Otherwise the parent node gets the handler and still has it after the rest of the merge, even if that merge fails. |
| `Dispatcher.FindOrInsertKeepsSiblingsUnique` | src/dispatcher.rs:138-155 | Reusing or inserting a child keeps every child list kind-unique: no child equals a later sibling. |
| `Dispatcher.MergeKeepsSiblingsUnique` | src/dispatcher.rs:113-163 | A whole merge keeps sibling kinds unique, on success and on failure. |
| `Dispatcher.MergeChildrenKeepsSiblingsUnique` | src/dispatcher.rs:156-160 | Merging the sub-trees in order keeps sibling kinds unique. |
| `Dispatcher.EqualKindsAgree` | src/dispatcher.rs:202-213 | If `equals` is symmetric and transitive, two node kinds that both equal one declared kind equal each other. |
| `Dispatcher.ReusedChildIsUnique` | src/dispatcher.rs:138-142 | If `equals` is symmetric and transitive, at most one child of a node equals a given declared kind, so the reused child is the only candidate. |
| `Dispatcher.FirstMatch` | src/dispatcher.rs:78-93 | Returns the first child, in insertion order, that accepts the input on a clone, and no earlier child accepts it. Returns `None` iff no child accepts it. |
| `Dispatcher.Resolve` | src/dispatcher.rs:69-99 | The walk ends at a node reachable from the current node through child edges, whose key is not smaller. When the input is empty it ends at the current node. It always terminates. |
| `Dispatcher.Dispatched` | src/dispatcher.rs:66-107 | A handler runs iff the walk from the root ends with empty input at a node that has one. The handler that runs is that final node's own, and it gets the full original text. Empty input runs nothing. |
| `Dispatcher.FirstMatchExtends` | src/dispatcher.rs:78-93 | In a grown arena, the first accepting child among the old children is still the first match. |
| `Dispatcher.ResolveExtends` | src/dispatcher.rs:73-99 | In a grown arena, an input that used to reach a node still reaches that same node. |
| `Dispatcher.DispatchSurvivesGrowth` | src/dispatcher.rs:66-107 | Any later registration, failed or not, leaves a dispatchable command dispatching to the same handler with the same text. |
| `Dispatcher.FirstMatchCommits` | src/dispatcher.rs:77-98 | Dispatch does not backtrack. The first accepting sibling is taken even when it leads nowhere and a later sibling would have reached a handler. |
| `Dispatcher.CommandDispatcher.constructor` | src/dispatcher.rs:33-39 | The dispatcher starts valid, with the root alone and no metadata. |
| `Dispatcher.CommandDispatcher.Register` | src/dispatcher.rs:42-48 | Exactly one metadata entry is appended, even when the merge fails. The arena becomes the merge of the tree at the root, which only grows it. The dispatcher stays valid: root at key 0 with no handler, and kind-unique siblings. On success the declared tree is present under the root (`Embedded`). |
| `Dispatcher.CommandDispatcher.AppendNode` | src/dispatcher.rs:113-163 | The in-place merge yields exactly what `MergeNode` describes, both outcome and arena, keeps the dispatcher valid and leaves the metadata alone. |
| `Dispatcher.CommandDispatcher.SetHandler` | src/dispatcher.rs:128-131 | Setting a handler on a non-root node changes only that node's handler and keeps the dispatcher valid. |
| `Dispatcher.CommandDispatcher.FindOrInsertChild` | src/dispatcher.rs:138-155 | The in-place search and insertion yields exactly what `FindOrInsert` describes, and keeps the dispatcher valid. |
| `Dispatcher.CommandDispatcher.Dispatch` | src/dispatcher.rs:66-107 | The loop returns exactly the reference invocation `Dispatched`, where `ran` is whether a handler ran and the handler gets the full text. Empty input returns false. |
| `CommandExec.Parse` | src/command/exec.rs:17-27 | Fails when the inner parser fails, or when input remains after it. On success the command holds exactly the inner value and the same handler, and no input remains. The cursor is always where the inner parser left it. |
| `CommandExec.ParseThenCall` | src/command/exec.rs:40-43 | Calling a parsed command applies the `Exec`'s handler to the context and to the value the inner parser extracted. |
| `CommandExec.CallRunsHandlerOnce` | src/command/exec.rs:40-43 | With a logging handler, one call adds exactly one log entry, and that entry is the stored value. |
| `CommandOr.Parse` | src/command/or.rs:16-22 | If the first parser succeeds, the result is `A` of its value and the cursor is the caller's, unadvanced. Otherwise both result and cursor are the second parser's, tagged `B`. The result is `None` iff both fail. |
| `CommandOr.SecondUnusedWhenFirstWins` | src/command/or.rs:17-20 | When the first parser succeeds, `A` is chosen and the second parser has no influence on the outcome. |
| `CommandOr.FirstCursorDiscarded` | src/command/or.rs:17-20 | Where the first attempt leaves its clone never affects the caller. The caller's cursor is either its own or the second parser's. |
| `CommandOr.ExecRejectsFirstBranch` | src/command/or.rs:17-21 | As written, `Exec` over `Or` rejects a non-empty input that the first alternative consumes fully on its own. `Exec` over that alternative alone accepts it. |
| `CommandOr.ParseCommitted` | src/command/or.rs:16-22 | Corrected alternative: a winning first branch commits its own cursor. Otherwise it behaves as `Parse`. |
| `CommandOr.ExecAcceptsCommittedFirstBranch` | src/command/or.rs:17-21 | With the corrected alternative, a first branch that consumes the whole input completes an `Exec`. The command then carries `A` of that branch's value. |
| `Scenarios.PrefixSharing` | src/dispatcher.rs:134-160 | Registering "foo bar" and then "foo baz" succeeds twice. It yields four nodes: one shared "foo" under the root, with two children "bar" and "baz". |
| `Scenarios.OverlapRejected` | src/dispatcher.rs:128-131 | A second command ending at the same node fails with `OverlappingCommands` and leaves the arena unchanged. "foo" still runs the first handler. |
| `Scenarios.TrailingInputRejected` | src/dispatcher.rs:73-106 | A line with a token that no child accepts ("foo x") runs nothing, even though "foo" itself has a handler. |

## Findings

| source | as written | input that shows it | evidently intended | confidence | as-written member | corrected member |
|---|---|---|---|---|---|---|
| src/command/or.rs:17-19 | The first alternative parses a clone. When it wins, the caller gets back its original, unadvanced cursor. | A first alternative that consumes the whole one-token input "x", inside `Exec`: `Exec` over the `Or` rejects "x", while `Exec` over that alternative alone accepts it. | A winning first alternative commits the cursor it advanced, as the second alternative does. | medium (not executed) | CommandOr.ExecRejectsFirstBranch | CommandOr.ParseCommitted |

`CommandOr.Parse` keeps the as-written behaviour, because that is what `or.rs` does. `CommandOr.ParseCommitted` is the corrected variant, and `CommandOr.ExecAcceptsCommittedFirstBranch` proves the intended property about it. No other part of the model uses `Or`.

## Left out

- The context type `C`: handlers act on it in `dispatch` and checkers receive it in `satisfies`. Dispatch returns the invocation (`Call`: which handler, with which text) instead of performing it. Checkers are modelled as depending only on the cursor.
- The `Input` implementation and Unicode handling. `head` is a parameter and emptiness means "no characters left". The declaration of `Input` is not part of this model.
- The builder that produces `CommandNode` trees, and the contents of `CommandMeta`. Trees are inputs and the metadata is opaque.
- `Slab` and `SmallVec`. The arena is a `seq<Node>` whose keys are its indices, handed out in order from 0, and child lists are `seq<nat>`.
- `with`, which unwraps `register` and panics on error. `Default`, which equals `new`.
- The `unreachable!` on a `Root` child during dispatch: `Matches` requires a non-root kind, and the arena invariant guarantees it.
- Rust's one-element tuples `(Command,)` and `(Either,)`: the value is used directly.
- Lifetimes, `Cow`, and the commented-out tokenizer test.
- `command_meta` returns an iterator; the model returns the sequence of metadata.

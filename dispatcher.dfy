/**
  The command graph of `src/dispatcher.rs`.

  The dispatcher owns an append-only arena of nodes addressed by their index
  (a `NodeKey`). Index 0 is the root, the first key the slab hands out.
  `register` merges a declared command tree into the arena and shares each
  prefix it finds: a declared node reuses the first existing child of equal
  kind. `dispatch` walks the arena from the root, commits at every step to the
  first child that matches the remaining input, and succeeds only if the input
  runs out at a node that carries a handler.

  The pure functions below are the reference semantics. The class
  `CommandDispatcher` at the end holds the state that the source updates in
  place, and its methods are proved equal to these functions.

  `K` stands for a boxed argument checker. Its two operations, `equals` and
  `satisfies`, are given by a `Checkers<K>` value. `H` stands for a boxed
  handler and `M` for an opaque `CommandMeta`.
*/
module Dispatcher {
  import opened Wrappers
  import opened Cursor
  import CommandTree

  /** `RegisterError`. */
  datatype RegisterError = OverlappingCommands | ExecutableRoot

  /** `NodeKind`: a literal token, a type-erased checker, or the root. */
  datatype NodeKind<K> = Literal(text: string) | Parser(checker: K) | Root

  /** `Node`: the ordered child keys (`next`), the kind and the optional handler (`exec`). */
  datatype Node<K, H> = Node(next: seq<nat>, kind: NodeKind<K>, exec: Option<H>)

  /**
    The behaviour of the boxed checkers: `ArgumentChecker::equals` and
    `ArgumentChecker::satisfies`. The context argument of `satisfies` is not
    modelled; the checker reports success and leaves a cursor behind.
  */
  datatype Checkers<!K> = Checkers(equals: (K, K) -> bool, satisfies: (K, Input) -> (bool, Input))

  /** A handler invocation: the handler that ran and the text it was given. */
  datatype Call<H> = Call(handler: H, text: string)

  // ---------------------------------------------------------------------------
  // Kinds

  /** `From<CommandNodeKind> for Node`: the kind a newly inserted node gets. */
  function FromCommandKind<K>(kind: CommandTree.CommandNodeKind<K>): (r: NodeKind<K>)
    ensures !r.Root?
    ensures AsCommandKind(r) == kind
  {
    match kind
    case Literal(text) => Literal(text)
    case Parser(checker) => Parser(checker)
  }

  /** The declared kind a non-root node was created from. */
  function AsCommandKind<K>(kind: NodeKind<K>): (r: CommandTree.CommandNodeKind<K>)
    requires !kind.Root?
  {
    if kind.Literal? then CommandTree.Literal(kind.text) else CommandTree.Parser(kind.checker)
  }

  /**
    `impl PartialEq<CommandNodeKind> for NodeKind`. Two literals are equal
    when their texts are. Two checkers are equal when `equals` says so.
    Nothing else is equal, and `Root` equals no declared kind.
  */
  function KindEq<K>(node: NodeKind<K>, declared: CommandTree.CommandNodeKind<K>, equals: (K, K) -> bool): (r: bool)
    ensures node.Root? ==> !r
    ensures r ==> (node.Literal? <==> declared.Literal?)
    ensures node.Literal? && declared.Literal? ==> (r <==> node.text == declared.text)
    ensures node.Parser? && declared.Parser? ==> (r <==> equals(node.checker, declared.checker))
  {
    if declared.Literal? then node.Literal? && node.text == declared.text
    else node.Parser? && equals(node.checker, declared.checker)
  }

  // ---------------------------------------------------------------------------
  // Arena invariants

  /**
    The shape every arena keeps. There is at least one node. Node 0 is the
    root, which carries no handler. No other node is a root. Every child key
    is a valid key, and it is larger than the key of its parent.
  */
  ghost predicate WellFormed<K, H>(nodes: seq<Node<K, H>>)
  {
    && |nodes| >= 1
    && nodes[0].kind.Root?
    && nodes[0].exec.None?
    && (forall i :: 1 <= i < |nodes| ==> !nodes[i].kind.Root?)
    && (forall i, p :: 0 <= i < |nodes| && 0 <= p < |nodes[i].next| ==> i < nodes[i].next[p] < |nodes|)
  }

  /** No child equals (in the sense of `KindEq`) the kind of a later sibling. */
  ghost predicate SiblingsUnique<K, H>(nodes: seq<Node<K, H>>, equals: (K, K) -> bool)
    requires WellFormed(nodes)
  {
    forall i, p, q :: 0 <= i < |nodes| && 0 <= p < q < |nodes[i].next| ==>
      !KindEq(nodes[nodes[i].next[p]].kind, AsCommandKind(nodes[nodes[i].next[q]].kind), equals)
  }

  /**
    `after` is `before` grown in place. Keys are never removed or reused.
    Every existing node keeps its kind. Its child list only grows at the end.
    A handler, once set, stays set and unchanged.
  */
  ghost predicate Extends<K, H>(before: seq<Node<K, H>>, after: seq<Node<K, H>>)
  {
    && |before| <= |after|
    && forall i :: 0 <= i < |before| ==>
         && after[i].kind == before[i].kind
         && before[i].next <= after[i].next
         && (before[i].exec.Some? ==> after[i].exec == before[i].exec)
  }

  lemma ExtendsTransitive<K, H>(a: seq<Node<K, H>>, b: seq<Node<K, H>>, c: seq<Node<K, H>>)
    requires Extends(a, b) && Extends(b, c)
    ensures Extends(a, c)
  {
    forall i | 0 <= i < |a|
      ensures a[i].next <= c[i].next
    {
      assert a[i].next <= b[i].next;
      assert b[i].next <= c[i].next;
    }
  }

  /** `CommandDispatcher::new`: the arena holds the root alone. */
  function InitialArena<K, H>(): (nodes: seq<Node<K, H>>)
    ensures WellFormed(nodes)
    ensures |nodes| == 1 && nodes[0].next == [] && nodes[0].kind.Root? && nodes[0].exec.None?
  {
    [Node([], Root, None)]
  }

  // ---------------------------------------------------------------------------
  // Registration (`append_node`)

  /**
    The search in `append_node`. It returns the position, among `children`
    from `from` on, of the first child whose kind equals `kind`.
  */
  function FindChild<K, H>(nodes: seq<Node<K, H>>, children: seq<nat>, from: nat,
                           kind: CommandTree.CommandNodeKind<K>, equals: (K, K) -> bool): (r: Option<nat>)
    requires from <= |children|
    requires forall p :: 0 <= p < |children| ==> children[p] < |nodes|
    ensures r.Some? ==> from <= r.value < |children| && KindEq(nodes[children[r.value]].kind, kind, equals)
    ensures r.Some? ==> forall p :: from <= p < r.value ==> !KindEq(nodes[children[p]].kind, kind, equals)
    ensures r.None? <==> forall p :: from <= p < |children| ==> !KindEq(nodes[children[p]].kind, kind, equals)
    decreases |children| - from
  {
    if from == |children| then None
    else if KindEq(nodes[children[from]].kind, kind, equals) then Some(from)
    else FindChild(nodes, children, from + 1, kind, equals)
  }

  /**
    `after` is `before` with one new node of kind `kind` and no children or
    handler, appended under `parent`. Nothing else changes.
  */
  ghost predicate AppendedChild<K, H>(before: seq<Node<K, H>>, after: seq<Node<K, H>>, parent: nat,
                                      kind: CommandTree.CommandNodeKind<K>)
    requires parent < |before|
  {
    && |after| == |before| + 1
    && after[|before|] == Node([], FromCommandKind(kind), None)
    && after[parent] == before[parent].(next := before[parent].next + [|before|])
    && forall i :: 0 <= i < |before| && i != parent ==> after[i] == before[i]
  }

  /**
    The second half of `append_node` before its recursion. It reuses the
    first child of `parent` whose kind equals `kind`, and then the arena is
    unchanged. Failing that, it inserts a node built from `kind` and appends
    its key to `parent`'s children. It returns the key of that child.
  */
  function FindOrInsert<K, H>(nodes: seq<Node<K, H>>, parent: nat, kind: CommandTree.CommandNodeKind<K>,
                              equals: (K, K) -> bool): (r: (nat, seq<Node<K, H>>))
    requires WellFormed(nodes) && parent < |nodes|
    ensures WellFormed(r.1) && Extends(nodes, r.1)
    ensures parent < r.0 < |r.1| && r.0 in r.1[parent].next
    ensures FindChild(nodes, nodes[parent].next, 0, kind, equals).Some? <==> r.1 == nodes
    ensures r.1 == nodes ==> r.0 == nodes[parent].next[FindChild(nodes, nodes[parent].next, 0, kind, equals).value]
    ensures r.1 != nodes ==> r.0 == |nodes| && AppendedChild(nodes, r.1, parent, kind)
  {
    match FindChild(nodes, nodes[parent].next, 0, kind, equals)
    case Some(p) => (nodes[parent].next[p], nodes)
    case None =>
      var key := |nodes|;
      var inserted := nodes + [Node([], FromCommandKind(kind), None)];
      (key, inserted[parent := inserted[parent].(next := inserted[parent].next + [key])])
  }

  /**
    `append_node(current, t)`, as a function of the arena. A handler on `t`
    goes to `current`, the parent arena node. This fails with
    `ExecutableRoot` if `current` is the root, and with `OverlappingCommands`
    if `current` already has a handler; the arena is then untouched. Next,
    `t`'s kind is found among `current`'s children or inserted. Finally the
    sub-trees are merged under that child. The first error stops the merge,
    and what was done before it stays done.
  */
  function MergeNode<K, H>(nodes: seq<Node<K, H>>, current: nat, t: CommandTree.CommandNode<K, H>,
                           equals: (K, K) -> bool): (r: (Outcome<RegisterError>, seq<Node<K, H>>))
    requires WellFormed(nodes) && current < |nodes|
    ensures WellFormed(r.1) && Extends(nodes, r.1)
    decreases t, |t.next| + 1
  {
    if t.exec.Some? && nodes[current].kind.Root? then (Fail(ExecutableRoot), nodes)
    else if t.exec.Some? && nodes[current].exec.Some? then (Fail(OverlappingCommands), nodes)
    else
      var attached := if t.exec.Some? then nodes[current := nodes[current].(exec := t.exec)] else nodes;
      var (found, grown) := FindOrInsert(attached, current, t.kind, equals);
      var r := MergeChildren(grown, found, t, 0, equals);
      ExtendsTransitive(nodes, attached, grown);
      ExtendsTransitive(nodes, grown, r.1);
      r
  }

  /**
    The `map(..).collect::<Result<..>>()` over `t.next` from position `i`.
    It merges each sub-tree under `found` in order and stops at the first
    error.
  */
  function MergeChildren<K, H>(nodes: seq<Node<K, H>>, found: nat, t: CommandTree.CommandNode<K, H>, i: nat,
                               equals: (K, K) -> bool): (r: (Outcome<RegisterError>, seq<Node<K, H>>))
    requires WellFormed(nodes) && found < |nodes| && i <= |t.next|
    ensures WellFormed(r.1) && Extends(nodes, r.1)
    decreases t, |t.next| - i
  {
    if i == |t.next| then (Pass, nodes)
    else
      var (outcome, merged) := MergeNode(nodes, found, t.next[i], equals);
      if outcome.Fail? then (outcome, merged)
      else
        var r := MergeChildren(merged, found, t, i + 1, equals);
        ExtendsTransitive(nodes, merged, r.1);
        r
  }

  // ---------------------------------------------------------------------------
  // Properties of registration

  /**
    A node of kind `kind` stands for the declared kind `declared`: it equals
    it, or it was built from it. Checker equality is not assumed reflexive,
    so a node built from a declared checker need not equal that checker.
  */
  ghost predicate Represents<K>(kind: NodeKind<K>, declared: CommandTree.CommandNodeKind<K>, equals: (K, K) -> bool)
  {
    KindEq(kind, declared, equals) || kind == FromCommandKind(declared)
  }

  /**
    The declared tree `t` is present under `current`. `t`'s handler, if it
    has one, is on `current`, and some child of `current` represents `t`'s
    kind and holds each of `t`'s sub-trees in turn.
  */
  ghost predicate Embedded<K, H>(nodes: seq<Node<K, H>>, current: nat, t: CommandTree.CommandNode<K, H>,
                                 equals: (K, K) -> bool)
    requires WellFormed(nodes) && current < |nodes|
    decreases t, 1
  {
    && (t.exec.Some? ==> nodes[current].exec == t.exec)
    && exists p :: 0 <= p < |nodes[current].next| && EmbeddedAt(nodes, current, p, t, equals)
  }

  /** The child at position `p` of `current` represents `t`'s kind and holds its sub-trees. */
  ghost predicate EmbeddedAt<K, H>(nodes: seq<Node<K, H>>, current: nat, p: nat, t: CommandTree.CommandNode<K, H>,
                                   equals: (K, K) -> bool)
    requires WellFormed(nodes) && current < |nodes| && p < |nodes[current].next|
    decreases t, 0
  {
    var c := nodes[current].next[p];
    && Represents(nodes[c].kind, t.kind, equals)
    && forall i :: 0 <= i < |t.next| ==> Embedded(nodes, c, t.next[i], equals)
  }

  /** A declared tree present in an arena stays present in every extension of it. */
  lemma {:induction false} EmbeddedExtends<K, H>(before: seq<Node<K, H>>, after: seq<Node<K, H>>, current: nat,
                                                 t: CommandTree.CommandNode<K, H>, equals: (K, K) -> bool)
    requires WellFormed(before) && WellFormed(after) && Extends(before, after) && current < |before|
    requires Embedded(before, current, t, equals)
    ensures Embedded(after, current, t, equals)
    decreases t
  {
    var p :| 0 <= p < |before[current].next| && EmbeddedAt(before, current, p, t, equals);
    assert before[current].next <= after[current].next;
    var c := before[current].next[p];
    assert after[current].next[p] == c;
    forall i | 0 <= i < |t.next|
      ensures Embedded(after, c, t.next[i], equals)
    {
      EmbeddedExtends(before, after, c, t.next[i], equals);
    }
    assert EmbeddedAt(after, current, p, t, equals);
  }

  /**
    A merge that succeeds leaves the whole declared tree in the arena: each
    declared kind under its parent and each declared handler on its parent
    node.
  */
  lemma {:induction false} MergeEmbeds<K, H>(nodes: seq<Node<K, H>>, current: nat, t: CommandTree.CommandNode<K, H>,
                                             equals: (K, K) -> bool)
    requires WellFormed(nodes) && current < |nodes|
    ensures MergeNode(nodes, current, t, equals).0.Pass? ==> Embedded(MergeNode(nodes, current, t, equals).1, current, t, equals)
    decreases t, |t.next| + 1
  {
    if t.exec.Some? && nodes[current].kind.Root? {
    } else if t.exec.Some? && nodes[current].exec.Some? {
    } else {
      var attached := if t.exec.Some? then nodes[current := nodes[current].(exec := t.exec)] else nodes;
      var (found, grown) := FindOrInsert(attached, current, t.kind, equals);
      var r := MergeChildren(grown, found, t, 0, equals);
      assert r == MergeNode(nodes, current, t, equals);
      if r.0.Pass? {
        forall j | 0 <= j < |t.next|
          ensures Embedded(r.1, found, t.next[j], equals)
        {
          MergeChildrenEmbeds(grown, found, t, 0, j, equals);
        }
        ExtendsTransitive(attached, grown, r.1);
        assert Represents(grown[found].kind, t.kind, equals);
        var p :| 0 <= p < |grown[current].next| && grown[current].next[p] == found;
        assert grown[current].next <= r.1[current].next;
        assert r.1[current].next[p] == found;
        assert EmbeddedAt(r.1, current, p, t, equals);
      }
    }
  }

  lemma {:induction false} MergeChildrenEmbeds<K, H>(nodes: seq<Node<K, H>>, found: nat, t: CommandTree.CommandNode<K, H>,
                                                     i: nat, j: nat, equals: (K, K) -> bool)
    requires WellFormed(nodes) && found < |nodes| && i <= j < |t.next|
    ensures MergeChildren(nodes, found, t, i, equals).0.Pass? ==>
              Embedded(MergeChildren(nodes, found, t, i, equals).1, found, t.next[j], equals)
    decreases t, |t.next| - i
  {
    var r := MergeChildren(nodes, found, t, i, equals);
    if r.0.Pass? {
      var m := MergeNode(nodes, found, t.next[i], equals);
      MergeChildrenStep(nodes, found, t, i, equals);
      if j == i {
        MergeEmbeds(nodes, found, t.next[i], equals);
        EmbeddedExtends(m.1, r.1, found, t.next[i], equals);
      } else {
        MergeChildrenEmbeds(m.1, found, t, i + 1, j, equals);
      }
    }
  }

  /** One step of `MergeChildren`: sub-tree `i` is merged, and the rest only if it passed. */
  lemma MergeChildrenStep<K, H>(nodes: seq<Node<K, H>>, found: nat, t: CommandTree.CommandNode<K, H>, i: nat,
                                equals: (K, K) -> bool)
    requires WellFormed(nodes) && found < |nodes| && i < |t.next|
    ensures var m := MergeNode(nodes, found, t.next[i], equals);
            MergeChildren(nodes, found, t, i, equals) == if m.0.Fail? then m else MergeChildren(m.1, found, t, i + 1, equals)
  {
  }

  /**
    Sub-trees `i` to `j - 1` of `t` merge under `found` without error, and
    `r` is what merging sub-tree `j` on top of them gives.
  */
  ghost predicate StopsAt<K, H>(nodes: seq<Node<K, H>>, found: nat, t: CommandTree.CommandNode<K, H>, i: nat, j: nat,
                                r: (Outcome<RegisterError>, seq<Node<K, H>>), equals: (K, K) -> bool)
    requires WellFormed(nodes) && found < |nodes| && i <= j < |t.next|
  {
    var before := MergeChildren(nodes, found, t.(next := t.next[..j]), i, equals);
    before.0.Pass? && r == MergeNode(before.1, found, t.next[j], equals)
  }

  /**
    The first error stops the remaining siblings. A failing merge of the
    sub-trees returns the outcome and arena of the first sub-tree that
    fails, after all earlier ones merged; the sub-trees after it are never
    merged.
  */
  lemma {:induction false} MergeChildrenStopsAtFirstError<K, H>(nodes: seq<Node<K, H>>, found: nat,
                                                                t: CommandTree.CommandNode<K, H>, i: nat,
                                                                equals: (K, K) -> bool)
    requires WellFormed(nodes) && found < |nodes| && i <= |t.next|
    ensures var r := MergeChildren(nodes, found, t, i, equals);
            r.0.Fail? ==> exists j :: i <= j < |t.next| && StopsAt(nodes, found, t, i, j, r, equals)
    decreases |t.next| - i
  {
    var r := MergeChildren(nodes, found, t, i, equals);
    if i < |t.next| && r.0.Fail? {
      var m := MergeNode(nodes, found, t.next[i], equals);
      MergeChildrenStep(nodes, found, t, i, equals);
      if m.0.Fail? {
        assert StopsAt(nodes, found, t, i, i, r, equals);
      } else {
        MergeChildrenStopsAtFirstError(m.1, found, t, i + 1, equals);
        var j :| i + 1 <= j < |t.next| && StopsAt(m.1, found, t, i + 1, j, r, equals);
        var prefix := t.(next := t.next[..j]);
        assert prefix.next[i] == t.next[i];
        MergeChildrenStep(nodes, found, prefix, i, equals);
        assert StopsAt(nodes, found, t, i, j, r, equals);
      }
    }
  }

  /**
    A declared handler goes to the parent arena node. At the root it fails
    with `ExecutableRoot`, and at a node that has a handler it fails with
    `OverlappingCommands`; in both cases the arena is unchanged. Otherwise
    the parent gets the handler and keeps it, whatever happens afterwards.
  */
  lemma AppendNodeHandler<K, H>(nodes: seq<Node<K, H>>, current: nat, t: CommandTree.CommandNode<K, H>,
                                equals: (K, K) -> bool)
    requires WellFormed(nodes) && current < |nodes| && t.exec.Some?
    ensures current == 0 ==> MergeNode(nodes, current, t, equals) == (Fail(ExecutableRoot), nodes)
    ensures current != 0 && nodes[current].exec.Some? ==>
              MergeNode(nodes, current, t, equals) == (Fail(OverlappingCommands), nodes)
    ensures current != 0 && nodes[current].exec.None? ==> MergeNode(nodes, current, t, equals).1[current].exec == t.exec
  {
    if current != 0 && nodes[current].exec.None? {
      var attached := nodes[current := nodes[current].(exec := t.exec)];
      var (found, grown) := FindOrInsert(attached, current, t.kind, equals);
      var r := MergeChildren(grown, found, t, 0, equals);
      ExtendsTransitive(attached, grown, r.1);
      assert r == MergeNode(nodes, current, t, equals);
    }
  }

  /** Inserting or reusing a child keeps siblings kind-unique. */
  lemma FindOrInsertKeepsSiblingsUnique<K, H>(nodes: seq<Node<K, H>>, parent: nat, kind: CommandTree.CommandNodeKind<K>,
                                              equals: (K, K) -> bool)
    requires WellFormed(nodes) && parent < |nodes| && SiblingsUnique(nodes, equals)
    ensures SiblingsUnique(FindOrInsert(nodes, parent, kind, equals).1, equals)
  {
    var (key, after) := FindOrInsert(nodes, parent, kind, equals);
    if after != nodes {
      forall i, p, q | 0 <= i < |after| && 0 <= p < q < |after[i].next|
        ensures !KindEq(after[after[i].next[p]].kind, AsCommandKind(after[after[i].next[q]].kind), equals)
      {
        if i == parent && q == |nodes[parent].next| {
          assert after[i].next[q] == key;
          assert after[i].next[p] == nodes[parent].next[p];
        } else if i < |nodes| {
          assert after[i].next[p] == nodes[i].next[p];
          assert after[i].next[q] == nodes[i].next[q];
        }
      }
    }
  }

  /** Merging a declared tree keeps siblings kind-unique, whether it succeeds or fails. */
  lemma {:induction false} MergeKeepsSiblingsUnique<K, H>(nodes: seq<Node<K, H>>, current: nat,
                                                          t: CommandTree.CommandNode<K, H>, equals: (K, K) -> bool)
    requires WellFormed(nodes) && current < |nodes| && SiblingsUnique(nodes, equals)
    ensures SiblingsUnique(MergeNode(nodes, current, t, equals).1, equals)
    decreases t, |t.next| + 1
  {
    if t.exec.Some? && nodes[current].kind.Root? {
    } else if t.exec.Some? && nodes[current].exec.Some? {
    } else {
      var attached := if t.exec.Some? then nodes[current := nodes[current].(exec := t.exec)] else nodes;
      assert SiblingsUnique(attached, equals) by {
        forall i, p | 0 <= i < |attached| && 0 <= p < |attached[i].next|
          ensures attached[attached[i].next[p]].kind == nodes[nodes[i].next[p]].kind
        {
        }
      }
      FindOrInsertKeepsSiblingsUnique(attached, current, t.kind, equals);
      var (found, grown) := FindOrInsert(attached, current, t.kind, equals);
      MergeChildrenKeepsSiblingsUnique(grown, found, t, 0, equals);
    }
  }

  lemma {:induction false} MergeChildrenKeepsSiblingsUnique<K, H>(nodes: seq<Node<K, H>>, found: nat,
                                                                  t: CommandTree.CommandNode<K, H>, i: nat,
                                                                  equals: (K, K) -> bool)
    requires WellFormed(nodes) && found < |nodes| && i <= |t.next| && SiblingsUnique(nodes, equals)
    ensures SiblingsUnique(MergeChildren(nodes, found, t, i, equals).1, equals)
    decreases t, |t.next| - i
  {
    if i < |t.next| {
      MergeKeepsSiblingsUnique(nodes, found, t.next[i], equals);
      var (outcome, merged) := MergeNode(nodes, found, t.next[i], equals);
      if outcome.Pass? {
        MergeChildrenKeepsSiblingsUnique(merged, found, t, i + 1, equals);
      }
    }
  }

  ghost predicate Symmetric<K(!new)>(equals: (K, K) -> bool)
  {
    forall x, y :: equals(x, y) == equals(y, x)
  }

  ghost predicate Transitive<K(!new)>(equals: (K, K) -> bool)
  {
    forall x, y, z :: equals(x, y) && equals(y, z) ==> equals(x, z)
  }

  /** Under an equivalence, two nodes that equal the same declared kind equal each other's kind. */
  lemma EqualKindsAgree<K(!new)>(a: NodeKind<K>, b: NodeKind<K>, kind: CommandTree.CommandNodeKind<K>,
                                 equals: (K, K) -> bool)
    requires Symmetric(equals) && Transitive(equals) && !b.Root?
    ensures KindEq(a, kind, equals) && KindEq(b, kind, equals) ==> KindEq(a, AsCommandKind(b), equals)
  {
    if KindEq(a, kind, equals) && KindEq(b, kind, equals) && kind.Parser? {
      assert equals(b.checker, kind.checker);
      assert equals(kind.checker, b.checker);
      assert equals(a.checker, b.checker);
    }
  }

  /**
    When `equals` is symmetric and transitive, as checker equality is meant
    to be, at most one child of a node equals a given declared kind. The
    child that `append_node` reuses is then the only candidate.
  */
  lemma ReusedChildIsUnique<K(!new), H>(nodes: seq<Node<K, H>>, parent: nat, kind: CommandTree.CommandNodeKind<K>,
                                        equals: (K, K) -> bool, p: nat, q: nat)
    requires WellFormed(nodes) && SiblingsUnique(nodes, equals) && parent < |nodes|
    requires Symmetric(equals) && Transitive(equals)
    requires p < q < |nodes[parent].next|
    ensures KindEq(nodes[nodes[parent].next[p]].kind, kind, equals) ==> !KindEq(nodes[nodes[parent].next[q]].kind, kind, equals)
  {
    var a, b := nodes[nodes[parent].next[p]].kind, nodes[nodes[parent].next[q]].kind;
    assert !KindEq(a, AsCommandKind(b), equals);
    EqualKindsAgree(a, b, kind, equals);
  }

  // ---------------------------------------------------------------------------
  // Dispatch

  /**
    Whether a child of kind `kind` accepts the input, tried on a clone, and
    the clone it leaves. A checker runs `satisfies`. A literal compares its
    text with `head(" ")`. `Root` is excluded because the source treats it as
    unreachable.
  */
  function Matches<K>(kind: NodeKind<K>, input: Input, head: Head, satisfies: (K, Input) -> (bool, Input)): (r: (bool, Input))
    requires !kind.Root?
  {
    if kind.Parser? then satisfies(kind.checker, input)
    else
      var (token, rest) := head(input, Separator);
      (kind.text == token, rest)
  }

  /** Trying the child at position `p` of `current`. */
  function Attempt<K, H>(nodes: seq<Node<K, H>>, current: nat, p: nat, input: Input, head: Head,
                         satisfies: (K, Input) -> (bool, Input)): (r: (bool, Input))
    requires WellFormed(nodes) && current < |nodes| && p < |nodes[current].next|
  {
    Matches(nodes[nodes[current].next[p]].kind, input, head, satisfies)
  }

  /**
    The `filter_map(..).next()` of `dispatch`. It returns the position of
    the first child of `current`, from `from` on and in insertion order,
    that accepts the input, or `None` if no child does.
  */
  function FirstMatch<K, H>(nodes: seq<Node<K, H>>, current: nat, from: nat, input: Input, head: Head,
                            satisfies: (K, Input) -> (bool, Input)): (r: Option<nat>)
    requires WellFormed(nodes) && current < |nodes| && from <= |nodes[current].next|
    ensures r.Some? ==> from <= r.value < |nodes[current].next| && Attempt(nodes, current, r.value, input, head, satisfies).0
    ensures r.Some? ==> forall p :: from <= p < r.value ==> !Attempt(nodes, current, p, input, head, satisfies).0
    ensures r.None? <==> forall p :: from <= p < |nodes[current].next| ==> !Attempt(nodes, current, p, input, head, satisfies).0
    decreases |nodes[current].next| - from
  {
    if from == |nodes[current].next| then None
    else if Attempt(nodes, current, from, input, head, satisfies).0 then Some(from)
    else FirstMatch(nodes, current, from + 1, input, head, satisfies)
  }

  /** `to` is `from` itself or a descendant of it through child edges. */
  ghost predicate Reaches<K, H>(nodes: seq<Node<K, H>>, from: nat, to: nat)
    requires WellFormed(nodes) && from < |nodes|
    decreases |nodes| - from
  {
    from == to || exists p :: 0 <= p < |nodes[from].next| && Reaches(nodes, nodes[from].next[p], to)
  }

  /**
    The `while !input.empty()` loop of `dispatch`, from `current`. It
    returns the node where the input runs out, or `None` as soon as no
    child accepts the remaining input. There is no backtracking. It always
    terminates, because every child key is larger than its parent's.
  */
  function Resolve<K, H>(nodes: seq<Node<K, H>>, current: nat, input: Input, head: Head,
                         satisfies: (K, Input) -> (bool, Input)): (r: Option<nat>)
    requires WellFormed(nodes) && current < |nodes|
    ensures r.Some? ==> current <= r.value < |nodes| && Reaches(nodes, current, r.value)
    ensures input.Empty() ==> r == Some(current)
    decreases |nodes| - current
  {
    if input.Empty() then Some(current)
    else
      match FirstMatch(nodes, current, 0, input, head, satisfies)
      case None => None
      case Some(p) =>
        Resolve(nodes, nodes[current].next[p], Attempt(nodes, current, p, input, head, satisfies).1, head, satisfies)
  }

  /**
    `dispatch(ctx, command)`: the handler invocation it performs, if any.
    The input is the whole command text. The handler of the node where the
    input runs out runs, and it gets that full original text. Empty input
    ends at the root, which has no handler.
  */
  function Dispatched<K, H>(nodes: seq<Node<K, H>>, command: string, head: Head,
                            satisfies: (K, Input) -> (bool, Input)): (r: Option<Call<H>>)
    requires WellFormed(nodes)
    ensures r.Some? ==> r.value.text == command
    ensures |command| == 0 ==> r.None?
    ensures r.Some? <==> (Resolve(nodes, 0, Input(command), head, satisfies).Some? &&
                          nodes[Resolve(nodes, 0, Input(command), head, satisfies).value].exec.Some?)
    ensures r.Some? ==> r.value.handler == nodes[Resolve(nodes, 0, Input(command), head, satisfies).value].exec.value
  {
    match Resolve(nodes, 0, Input(command), head, satisfies)
    case None => None
    case Some(n) => if nodes[n].exec.Some? then Some(Call(nodes[n].exec.value, command)) else None
  }

  // ---------------------------------------------------------------------------
  // Properties of dispatch

  /** In an extended arena, the first match among the old children stays the first match. */
  lemma {:induction false} FirstMatchExtends<K, H>(before: seq<Node<K, H>>, after: seq<Node<K, H>>, current: nat, from: nat,
                                                   input: Input, head: Head, satisfies: (K, Input) -> (bool, Input))
    requires WellFormed(before) && WellFormed(after) && Extends(before, after)
    requires current < |before| && from <= |before[current].next|
    requires FirstMatch(before, current, from, input, head, satisfies).Some?
    ensures FirstMatch(after, current, from, input, head, satisfies) == FirstMatch(before, current, from, input, head, satisfies)
    decreases |before[current].next| - from
  {
    assert before[current].next <= after[current].next;
    assert before[current].next[from] == after[current].next[from];
    if !Attempt(before, current, from, input, head, satisfies).0 {
      FirstMatchExtends(before, after, current, from + 1, input, head, satisfies);
    }
  }

  /** In an extended arena, an input that reached a node still reaches it. */
  lemma {:induction false} ResolveExtends<K, H>(before: seq<Node<K, H>>, after: seq<Node<K, H>>, current: nat,
                                                input: Input, head: Head, satisfies: (K, Input) -> (bool, Input))
    requires WellFormed(before) && WellFormed(after) && Extends(before, after) && current < |before|
    requires Resolve(before, current, input, head, satisfies).Some?
    ensures Resolve(after, current, input, head, satisfies) == Resolve(before, current, input, head, satisfies)
    decreases |before| - current
  {
    if !input.Empty() {
      var p := FirstMatch(before, current, 0, input, head, satisfies).value;
      FirstMatchExtends(before, after, current, 0, input, head, satisfies);
      assert before[current].next <= after[current].next;
      var child := before[current].next[p];
      assert after[current].next[p] == child;
      ResolveExtends(before, after, child, Attempt(before, current, p, input, head, satisfies).1, head, satisfies);
    }
  }

  /**
    Registering never breaks a command that already dispatches. Any arena
    that extends this one, including one left by a failed registration,
    runs the same handler on the same text. This holds because child lists
    only grow at the end and handlers are never replaced.
  */
  lemma DispatchSurvivesGrowth<K, H>(before: seq<Node<K, H>>, after: seq<Node<K, H>>, command: string, head: Head,
                                     satisfies: (K, Input) -> (bool, Input))
    requires WellFormed(before) && WellFormed(after) && Extends(before, after)
    requires Dispatched(before, command, head, satisfies).Some?
    ensures Dispatched(after, command, head, satisfies) == Dispatched(before, command, head, satisfies)
  {
    ResolveExtends(before, after, 0, Input(command), head, satisfies);
  }

  /**
    Dispatch is first-match and does not backtrack. Take root children
    `tp` (a literal with no children) and a checker that accepts `tp` too,
    whose child `x` has a handler. The input is "tp x". The walk commits to
    the literal, finds nothing under it for "x", and fails, although the
    checker's branch would have reached the handler.
  */
  lemma FirstMatchCommits<K, H>(checker: K, handler: H, head: Head, satisfies: (K, Input) -> (bool, Input))
    requires head(Input("tp x"), Separator) == ("tp", Input("x"))
    requires head(Input("x"), Separator) == ("x", Input(""))
    requires satisfies(checker, Input("tp x")) == (true, Input("x"))
    ensures var nodes := [Node([1, 2], Root, None), Node([], Literal("tp"), None),
                          Node([3], Parser(checker), None), Node([], Literal("x"), Some(handler))];
            && WellFormed(nodes)
            && Resolve(nodes, 2, Input("x"), head, satisfies) == Some(3)
            && nodes[3].exec == Some(handler)
            && Dispatched(nodes, "tp x", head, satisfies) == None
  {
    var nodes := [Node([1, 2], Root, None), Node([], Literal("tp"), None),
                  Node([3], Parser(checker), None), Node([], Literal("x"), Some(handler))];
    assert Attempt(nodes, 0, 0, Input("tp x"), head, satisfies) == (true, Input("x"));
    assert FirstMatch(nodes, 0, 0, Input("tp x"), head, satisfies) == Some(0);
    assert FirstMatch(nodes, 1, 0, Input("x"), head, satisfies) == None;
    assert Resolve(nodes, 1, Input("x"), head, satisfies) == None;
    assert Resolve(nodes, 0, Input("tp x"), head, satisfies) == None;
    assert Attempt(nodes, 2, 0, Input("x"), head, satisfies) == (true, Input(""));
    assert FirstMatch(nodes, 2, 0, Input("x"), head, satisfies) == Some(0);
  }

  // ---------------------------------------------------------------------------
  // The dispatcher object

  /** `CommandDispatcher<C>`: the arena, the root key and the registered metadata. */
  class CommandDispatcher<K, H, M> {
    var nodes: seq<Node<K, H>>
    var metas: seq<M>
    const root: nat
    const checkers: Checkers<K>

    ghost predicate Valid()
      reads this
    {
      root == 0 && WellFormed(nodes) && SiblingsUnique(nodes, checkers.equals)
    }

    /** `CommandDispatcher::new`: only the root, no metadata. */
    constructor (checkers: Checkers<K>)
      ensures Valid() && this.checkers == checkers
      ensures nodes == InitialArena() && metas == []
    {
      this.checkers := checkers;
      nodes := InitialArena();
      root := 0;
      metas := [];
    }

    /** `command_meta`: the metadata of every `register` call, in order. */
    function CommandMeta(): (r: seq<M>)
      reads this
    {
      metas
    }

    /**
      `register`: records the command's metadata first, so that it is kept
      even when the merge fails, then merges its tree from the root.
    */
    method Register(command: CommandTree.Command<K, H, M>) returns (r: Outcome<RegisterError>)
      requires Valid()
      modifies this
      ensures Valid()
      ensures metas == old(metas) + [command.meta]
      ensures (r, nodes) == MergeNode(old(nodes), 0, command.rootNode, checkers.equals)
      ensures Extends(old(nodes), nodes)
      ensures r.Pass? ==> Embedded(nodes, root, command.rootNode, checkers.equals)
    {
      metas := metas + [command.meta];
      r := AppendNode(root, command.rootNode);
      MergeEmbeds(old(nodes), root, command.rootNode, checkers.equals);
    }

    /** `append_node`: the in-place merge that `MergeNode` describes. */
    method AppendNode(current: nat, t: CommandTree.CommandNode<K, H>) returns (r: Outcome<RegisterError>)
      requires Valid() && current < |nodes|
      modifies this
      ensures Valid() && metas == old(metas)
      ensures (r, nodes) == MergeNode(old(nodes), current, t, checkers.equals)
      decreases t
    {
      if t.exec.Some? {
        if nodes[current].kind.Root? {
          return Fail(ExecutableRoot);
        }
        if nodes[current].exec.Some? {
          return Fail(OverlappingCommands);
        }
        SetHandler(current, t.exec.value);
      }
      var found := FindOrInsertChild(current, t.kind);
      ghost var grown := nodes;
      var i := 0;
      while i < |t.next|
        invariant i <= |t.next|
        invariant Valid() && metas == old(metas) && found < |nodes|
        invariant MergeChildren(grown, found, t, 0, checkers.equals) == MergeChildren(nodes, found, t, i, checkers.equals)
      {
        r := AppendNode(found, t.next[i]);
        if r.Fail? {
          return;
        }
        i := i + 1;
      }
      r := Pass;
    }

    /** `node.exec = Some(exec)` on a node other than the root. */
    method SetHandler(current: nat, exec: H)
      requires Valid() && 0 < current < |nodes|
      modifies this`nodes
      ensures Valid()
      ensures nodes == old(nodes)[current := old(nodes)[current].(exec := Some(exec))]
    {
      nodes := nodes[current := nodes[current].(exec := Some(exec))];
      assert SiblingsUnique(nodes, checkers.equals) by {
        forall i, p | 0 <= i < |nodes| && 0 <= p < |nodes[i].next|
          ensures nodes[nodes[i].next[p]].kind == old(nodes)[old(nodes)[i].next[p]].kind
        {
        }
      }
    }

    /**
      The search of `append_node` and, when it finds nothing, the insertion
      of a new node and the push of its key onto `current`'s children.
    */
    method FindOrInsertChild(current: nat, kind: CommandTree.CommandNodeKind<K>) returns (found: nat)
      requires Valid() && current < |nodes|
      modifies this`nodes
      ensures Valid()
      ensures (found, nodes) == FindOrInsert(old(nodes), current, kind, checkers.equals)
    {
      FindOrInsertKeepsSiblingsUnique(nodes, current, kind, checkers.equals);
      var children := nodes[current].next;
      var p := 0;
      while p < |children| && !KindEq(nodes[children[p]].kind, kind, checkers.equals)
        invariant p <= |children|
        invariant FindChild(nodes, children, p, kind, checkers.equals) == FindChild(nodes, children, 0, kind, checkers.equals)
      {
        p := p + 1;
      }
      if p < |children| {
        found := children[p];
      } else {
        found := |nodes|;
        nodes := nodes + [Node([], FromCommandKind(kind), None)];
        nodes := nodes[current := nodes[current].(next := nodes[current].next + [found])];
      }
    }

    /**
      `dispatch`: walks from the root and tries the children of the current
      node in order, each on a clone of the cursor. It commits to the first
      child that accepts and fails at once if none does. When the input is
      used up, it runs the current node's handler, if there is one, on the
      full command text. `ran` is the returned `bool`; `call` records the
      invocation.
    */
    method Dispatch(command: string, head: Head) returns (ran: bool, call: Option<Call<H>>)
      requires Valid()
      ensures call == Dispatched(nodes, command, head, checkers.satisfies)
      ensures ran <==> call.Some?
      ensures ran ==> call.value.text == command
      ensures |command| == 0 ==> !ran
    {
      var current := root;
      var input := Input(command);
      while !input.Empty()
        invariant current < |nodes|
        invariant Resolve(nodes, current, input, head, checkers.satisfies) == Resolve(nodes, 0, Input(command), head, checkers.satisfies)
        decreases |nodes| - current
      {
        var children := nodes[current].next;
        var p := 0;
        var step: Option<(nat, Input)> := None;
        while p < |children| && step.None?
          invariant p <= |children|
          invariant step.None? ==>
            FirstMatch(nodes, current, p, input, head, checkers.satisfies) == FirstMatch(nodes, current, 0, input, head, checkers.satisfies)
          invariant step.Some? ==> 0 < p && FirstMatch(nodes, current, 0, input, head, checkers.satisfies) == Some(p - 1) &&
                                   step.value == (children[p - 1], Attempt(nodes, current, p - 1, input, head, checkers.satisfies).1)
        {
          var attempt := Matches(nodes[children[p]].kind, input, head, checkers.satisfies);
          if attempt.0 {
            step := Some((children[p], attempt.1));
          }
          p := p + 1;
        }
        if step.None? {
          assert Resolve(nodes, current, input, head, checkers.satisfies) == None;
          return false, None;
        }
        assert Resolve(nodes, current, input, head, checkers.satisfies) ==
               Resolve(nodes, step.value.0, step.value.1, head, checkers.satisfies);
        current, input := step.value.0, step.value.1;
      }
      assert Resolve(nodes, 0, Input(command), head, checkers.satisfies) == Some(current);
      if nodes[current].exec.Some? {
        ran, call := true, Some(Call(nodes[current].exec.value, command));
      } else {
        ran, call := false, None;
      }
    }
  }
}

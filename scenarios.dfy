/**
  Concrete registrations and dispatches on small command trees. They show
  prefix sharing, overlap rejection, and a rejected registration leaving
  earlier commands dispatchable.

  A handler on a declared node goes to the arena node of its parent. So in
  `foo` → `bar`(handler) the handler ends up on `foo`.
*/
module Scenarios {
  import opened Wrappers
  import opened Cursor
  import CommandTree
  import opened Dispatcher

  /** A declared literal node. */
  function Lit<K, H>(text: string, exec: Option<H>, next: seq<CommandTree.CommandNode<K, H>>): (n: CommandTree.CommandNode<K, H>)
  {
    CommandTree.CommandNode(CommandTree.Literal(text), exec, next)
  }

  /** The arena that `FindOrInsert` builds when no child of `parent` has an equal kind. */
  lemma InsertedNode<K, H>(nodes: seq<Node<K, H>>, parent: nat, kind: CommandTree.CommandNodeKind<K>,
                           equals: (K, K) -> bool, expected: seq<Node<K, H>>)
    requires WellFormed(nodes) && parent < |nodes|
    requires FindChild(nodes, nodes[parent].next, 0, kind, equals) == None
    requires |expected| == |nodes| + 1
    requires expected[|nodes|] == Node([], FromCommandKind(kind), None)
    requires expected[parent] == nodes[parent].(next := nodes[parent].next + [|nodes|])
    requires forall i :: 0 <= i < |nodes| && i != parent ==> expected[i] == nodes[i]
    ensures FindOrInsert(nodes, parent, kind, equals) == (|nodes|, expected)
  {
    var r := FindOrInsert(nodes, parent, kind, equals);
    assert r.1 == expected by {
      forall i | 0 <= i < |expected|
        ensures r.1[i] == expected[i]
      {
      }
    }
  }

  /**
    Registering "foo bar" and then "foo baz" creates one shared node for
    "foo", with two distinct children.
  */
  lemma PrefixSharing<K, H>(equals: (K, K) -> bool)
    ensures var first := MergeNode(InitialArena<K, H>(), 0, Lit("foo", None, [Lit("bar", None, [])]), equals);
            var second := MergeNode(first.1, 0, Lit("foo", None, [Lit("baz", None, [])]), equals);
            && first.0 == Pass && second.0 == Pass
            && |second.1| == 4
            && second.1[0].next == [1]
            && second.1[1].kind == Literal("foo") && second.1[1].next == [2, 3]
            && second.1[2].kind == Literal("bar") && second.1[3].kind == Literal("baz")
  {
    var bar: CommandTree.CommandNode<K, H> := Lit("bar", None, []);
    var baz: CommandTree.CommandNode<K, H> := Lit("baz", None, []);
    var fooBar, fooBaz := Lit("foo", None, [bar]), Lit("foo", None, [baz]);
    var a0 := InitialArena<K, H>();
    var a1: seq<Node<K, H>> := [Node([1], Root, None), Node([], Literal("foo"), None)];
    var a2: seq<Node<K, H>> := [Node([1], Root, None), Node([2], Literal("foo"), None), Node([], Literal("bar"), None)];
    var a3: seq<Node<K, H>> := [Node([1], Root, None), Node([2, 3], Literal("foo"), None), Node([], Literal("bar"), None),
               Node([], Literal("baz"), None)];
    InsertedNode(a0, 0, fooBar.kind, equals, a1);
    InsertedNode(a1, 1, bar.kind, equals, a2);
    assert MergeNode(a1, 1, bar, equals) == (Pass, a2);
    assert MergeChildren(a1, 1, fooBar, 0, equals) == (Pass, a2);
    assert MergeNode(a0, 0, fooBar, equals) == (Pass, a2);
    assert FindChild(a2, a2[0].next, 0, fooBaz.kind, equals) == Some(0);
    assert FindOrInsert(a2, 0, fooBaz.kind, equals) == (1, a2);
    InsertedNode(a2, 1, baz.kind, equals, a3);
    assert MergeNode(a2, 1, baz, equals) == (Pass, a3);
    assert MergeChildren(a2, 1, fooBaz, 0, equals) == (Pass, a3);
    assert MergeNode(a2, 0, fooBaz, equals) == (Pass, a3);
  }

  /**
    Two commands that end at the same node: the second registration fails
    with `OverlappingCommands` and leaves the arena as it was. Dispatching
    "foo" still runs the first command's handler.
  */
  lemma OverlapRejected<K, H>(equals: (K, K) -> bool, satisfies: (K, Input) -> (bool, Input), head: Head,
                              first: H, second: H)
    requires head(Input("foo"), Separator) == ("foo", Input(""))
    ensures var once := MergeNode(InitialArena<K, H>(), 0, Lit("foo", None, [Lit("bar", Some(first), [])]), equals);
            var twice := MergeNode(once.1, 0, Lit("foo", None, [Lit("bar", Some(second), [])]), equals);
            && once.0 == Pass
            && twice == (Fail(OverlappingCommands), once.1)
            && Dispatched(twice.1, "foo", head, satisfies) == Some(Call(first, "foo"))
  {
    var bar1: CommandTree.CommandNode<K, H> := Lit("bar", Some(first), []);
    var bar2: CommandTree.CommandNode<K, H> := Lit("bar", Some(second), []);
    var t1, t2 := Lit("foo", None, [bar1]), Lit("foo", None, [bar2]);
    var a0 := InitialArena<K, H>();
    var a1: seq<Node<K, H>> := [Node([1], Root, None), Node([], Literal("foo"), None)];
    var a1h: seq<Node<K, H>> := [Node([1], Root, None), Node([], Literal("foo"), Some(first))];
    var a2: seq<Node<K, H>> := [Node([1], Root, None), Node([2], Literal("foo"), Some(first)), Node([], Literal("bar"), None)];
    InsertedNode(a0, 0, t1.kind, equals, a1);
    assert a1[1 := a1[1].(exec := Some(first))] == a1h;
    InsertedNode(a1h, 1, bar1.kind, equals, a2);
    assert MergeNode(a1, 1, bar1, equals) == (Pass, a2);
    assert MergeChildren(a1, 1, t1, 0, equals) == (Pass, a2);
    assert MergeNode(a0, 0, t1, equals) == (Pass, a2);
    assert FindChild(a2, a2[0].next, 0, t2.kind, equals) == Some(0);
    assert FindOrInsert(a2, 0, t2.kind, equals) == (1, a2);
    assert MergeNode(a2, 1, bar2, equals) == (Fail(OverlappingCommands), a2);
    assert MergeChildren(a2, 1, t2, 0, equals) == (Fail(OverlappingCommands), a2);
    assert MergeNode(a2, 0, t2, equals) == (Fail(OverlappingCommands), a2);
    assert Attempt(a2, 0, 0, Input("foo"), head, satisfies) == (true, Input(""));
    assert FirstMatch(a2, 0, 0, Input("foo"), head, satisfies) == Some(0);
    assert Resolve(a2, 0, Input("foo"), head, satisfies) == Some(1);
  }

  /**
    Dispatch needs the input to run out exactly at a node with a handler.
    After "foo" → "bar"(handler), the line "foo x" is rejected. No child of
    `foo` accepts "x", even though `foo` carries the handler.
  */
  lemma TrailingInputRejected<K, H>(equals: (K, K) -> bool, satisfies: (K, Input) -> (bool, Input), head: Head,
                                    handler: H)
    requires head(Input("foo x"), Separator) == ("foo", Input("x"))
    requires head(Input("x"), Separator) == ("x", Input(""))
    ensures var arena := MergeNode(InitialArena<K, H>(), 0, Lit("foo", None, [Lit("bar", Some(handler), [])]), equals).1;
            Dispatched(arena, "foo x", head, satisfies) == None
  {
    var bar: CommandTree.CommandNode<K, H> := Lit("bar", Some(handler), []);
    var t := Lit("foo", None, [bar]);
    var a0 := InitialArena<K, H>();
    var a1: seq<Node<K, H>> := [Node([1], Root, None), Node([], Literal("foo"), None)];
    var a1h: seq<Node<K, H>> := [Node([1], Root, None), Node([], Literal("foo"), Some(handler))];
    var a2: seq<Node<K, H>> := [Node([1], Root, None), Node([2], Literal("foo"), Some(handler)), Node([], Literal("bar"), None)];
    InsertedNode(a0, 0, t.kind, equals, a1);
    assert a1[1 := a1[1].(exec := Some(handler))] == a1h;
    InsertedNode(a1h, 1, bar.kind, equals, a2);
    assert MergeNode(a1, 1, bar, equals) == (Pass, a2);
    assert MergeChildren(a1, 1, t, 0, equals) == (Pass, a2);
    assert MergeNode(a0, 0, t, equals) == (Pass, a2);
    assert Attempt(a2, 0, 0, Input("foo x"), head, satisfies) == (true, Input("x"));
    assert FirstMatch(a2, 0, 0, Input("foo x"), head, satisfies) == Some(0);
    assert Attempt(a2, 1, 0, Input("x"), head, satisfies) == (false, Input(""));
    assert FirstMatch(a2, 1, 0, Input("x"), head, satisfies) == None;
    assert Resolve(a2, 1, Input("x"), head, satisfies) == None;
  }
}

/** Inserting a subtree: `flatten_tree` appends a child-less copy of every
    node of the subtree to a caller's list, and `create_add_amendment` files
    one change per flattened node. */
module Flatten {
  import opened Wrappers
  import opened Tree
  import opened Amendments

  /** A copy of the node without its children, so that payloads do not nest. */
  function Childless(n: Node): Node
  {
    n.(children := [])
  }

  function AllChildless(s: seq<Node>): (r: seq<Node>)
    ensures |r| == |s|
    ensures forall i :: 0 <= i < |s| ==> r[i] == Childless(s[i])
  {
    seq(|s|, i requires 0 <= i < |s| => Childless(s[i]))
  }

  /** What `flatten_tree` appends for a subtree: the root, then each child's
      subtree in order. */
  function Flattened(n: Node): seq<Node>
    decreases n
  {
    [Childless(n)] + FlattenedAll(n.children)
  }

  function FlattenedAll(ns: seq<Node>): seq<Node>
    decreases ns
  {
    if ns == [] then [] else Flattened(ns[0]) + FlattenedAll(ns[1..])
  }

  lemma AllChildlessAppend(a: seq<Node>, b: seq<Node>)
    ensures AllChildless(a + b) == AllChildless(a) + AllChildless(b)
  {
  }

  /** The flattened list is the subtree's depth-first walk with every
      node's children dropped: one entry per node, none with children. */
  lemma {:induction false} FlattenedIsWalk(n: Node)
    ensures Flattened(n) == AllChildless(Preorder(n))
    decreases n
  {
    FlattenedAllIsWalk(n.children);
    AllChildlessAppend([n], PreorderAll(n.children));
  }

  lemma {:induction false} FlattenedAllIsWalk(ns: seq<Node>)
    ensures FlattenedAll(ns) == AllChildless(PreorderAll(ns))
    decreases ns
  {
    if ns != [] {
      FlattenedIsWalk(ns[0]);
      FlattenedAllIsWalk(ns[1..]);
      AllChildlessAppend(Preorder(ns[0]), PreorderAll(ns[1..]));
    }
  }

  lemma {:induction false} FlattenedAllSnoc(ns: seq<Node>, n: Node)
    ensures FlattenedAll(ns + [n]) == FlattenedAll(ns) + Flattened(n)
  {
    if ns == [] {
      assert ([] + [n])[1..] == [];
    } else {
      assert (ns + [n])[1..] == ns[1..] + [n];
      FlattenedAllSnoc(ns[1..], n);
    }
  }

  /** The caller-supplied list that `flatten_tree` appends to. */
  class NodeList {
    var items: seq<Node>

    constructor ()
      ensures items == []
    {
      items := [];
    }
  }

  /** `flatten_tree(node_list, node)`. */
  method FlattenTree(nodeList: NodeList, n: Node)
    modifies nodeList
    ensures nodeList.items == old(nodeList.items) + Flattened(n)
    decreases n
  {
    nodeList.items := nodeList.items + [Childless(n)];
    var i := 0;
    while i < |n.children|
      invariant 0 <= i <= |n.children|
      invariant nodeList.items == old(nodeList.items) + [Childless(n)] + FlattenedAll(n.children[..i])
    {
      FlattenTree(nodeList, n.children[i]);
      FlattenedAllSnoc(n.children[..i], n.children[i]);
      assert n.children[..i + 1] == n.children[..i] + [n.children[i]];
      i := i + 1;
    }
    assert n.children[..i] == n.children;
  }

  /** The request to insert a subtree: `{'node': ..., 'action': ...,
      'parent_label': ...}`. */
  datatype AddAmendment = AddAmendment(node: Node, action: Action,
                                       parentLabel: Option<seq<string>>)

  /** A change together with the label id it is filed under. */
  datatype Keyed = Keyed(key: string, change: Change)

  /** `create_add_amendment(amendment)`: one change per node of the subtree,
      filed under that node's own label id, all with the amendment's action,
      none carrying children, and only the subtree root carrying the explicit
      parent label. */
  function CreateAddAmendment(a: AddAmendment): (r: seq<Keyed>)
    ensures |r| == |Preorder(a.node)| && |r| >= 1
    ensures forall i :: 0 <= i < |r| ==>
              r[i].change.node == Some(Childless(Preorder(a.node)[i])) &&
              r[i].key == LabelId(Preorder(a.node)[i].tokens)
    ensures forall i :: 0 <= i < |r| ==>
              r[i].change.action == a.action && r[i].change.node.Some? &&
              r[i].change.node.value.children == [] &&
              r[i].key == LabelId(r[i].change.node.value.tokens)
    ensures r[0].key == LabelId(a.node.tokens) && r[0].change.parentLabel == a.parentLabel
    ensures forall i :: 0 < i < |r| ==> r[i].change.parentLabel.None?
  {
    var nodes := Flattened(a.node);
    FlattenedIsWalk(a.node);
    seq(|nodes|, i requires 0 <= i < |nodes| =>
          Keyed(LabelId(nodes[i].tokens),
                Change(a.action, Some(nodes[i]), None, None,
                       if i == 0 then a.parentLabel else None, false)))
  }
}

/** The subtree-insertion tests on the six-node test tree. */
module FlattenCases {
  import opened Wrappers
  import opened Tree
  import opened Amendments
  import opened Flatten
  import opened CandidateCases

  /** `flatten_tree` on the test tree appends six entries, none with
      children. */
  method FlattenTestTree() returns (items: seq<Node>)
    ensures |items| == 6
    ensures forall k :: 0 <= k < |items| ==> items[k].children == []
  {
    var nodeList := new NodeList();
    FlattenTree(nodeList, BuildTree());
    items := nodeList.items;
    BuildTreePreorder();
    FlattenedIsWalk(BuildTree());
  }

  /** `create_add_amendment` on the test tree with an explicit parent label:
      six changes keyed 200, 200-1, 200-1-i, 200-2, 200-3, 200-3-a, all POST,
      with the parent label on 200 only. */
  lemma CreateAddAmendmentCase(t: Node)
    requires t == BuildTree()
    ensures var r := CreateAddAmendment(AddAmendment(t, Post, Some(["arbitrary"])));
            |r| == 6 &&
            [r[0].key, r[1].key, r[2].key, r[3].key, r[4].key, r[5].key]
              == ["200", "200-1", "200-1-i", "200-2", "200-3", "200-3-a"] &&
            r[0].change.parentLabel == Some(["arbitrary"]) &&
            (forall k :: 1 <= k < 6 ==> r[k].change.parentLabel == None) &&
            (forall k :: 0 <= k < 6 ==> r[k].change.action == Post)
  {
    BuildTreePreorder();
    var p := Preorder(t);
    assert LabelId(p[0].tokens) == "200";
    assert LabelId(p[1].tokens) == "200-1";
    assert LabelId(p[2].tokens) == "200-1-i";
    assert LabelId(p[3].tokens) == "200-2";
    assert LabelId(p[4].tokens) == "200-3";
    assert LabelId(p[5].tokens) == "200-3-a";
  }
}

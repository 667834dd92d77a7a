/** The regulation tree: a node owns its children; a label is the sequence of
    tokens from the root down, and its dash-joined form (`label_id`) is the key
    under which amendments are filed. */
module Tree {
  import opened Wrappers
  import opened Strings

  datatype NodeType = RegText | SubpartNode | Interp | Appendix | EmptyPart

  datatype Node = Node(tokens: seq<string>, text: string, title: Option<string>,
                       nodeType: NodeType, children: seq<Node>)

  /** `node.label_id()`: the label joined with dashes. */
  function LabelId(lbl: seq<string>): string
  {
    Join(lbl, '-')
  }

  /** The last token of a label (`label[-1]`), if there is one. */
  function LastToken(lbl: seq<string>): Option<string>
  {
    if |lbl| == 0 then None else Some(lbl[|lbl| - 1])
  }

  /** Every node of the subtree, root first, children left to right (the
      depth-first walk of `struct.walk`). */
  function Preorder(n: Node): (r: seq<Node>)
    ensures |r| >= 1 && r[0] == n
    decreases n
  {
    [n] + PreorderAll(n.children)
  }

  function PreorderAll(ns: seq<Node>): seq<Node>
    decreases ns
  {
    if ns == [] then [] else Preorder(ns[0]) + PreorderAll(ns[1..])
  }

  /** `struct.find(root, label_id)`: the first node in depth-first order whose
      label id is `id`. */
  function Find(root: Node, id: string): (r: Option<Node>)
    ensures r.Some? ==> r.value in Preorder(root) && LabelId(r.value.tokens) == id
    ensures r.None? ==> forall n :: n in Preorder(root) ==> LabelId(n.tokens) != id
  {
    FirstWithId(Preorder(root), id)
  }

  /** `Find` returns the first node of the walk with the id: a node at
      position `i` of the walk with the id, after none that has it. */
  lemma FindFirst(root: Node, id: string, i: nat)
    requires i < |Preorder(root)| && LabelId(Preorder(root)[i].tokens) == id
    requires forall j :: 0 <= j < i ==> LabelId(Preorder(root)[j].tokens) != id
    ensures Find(root, id) == Some(Preorder(root)[i])
  {
    FirstWithIdAt(Preorder(root), id, i);
  }

  lemma {:induction false} FirstWithIdAt(ns: seq<Node>, id: string, i: nat)
    requires i < |ns| && LabelId(ns[i].tokens) == id
    requires forall j :: 0 <= j < i ==> LabelId(ns[j].tokens) != id
    ensures FirstWithId(ns, id) == Some(ns[i])
  {
    if i > 0 {
      assert LabelId(ns[0].tokens) != id;
      forall j | 0 <= j < i - 1
        ensures LabelId(ns[1..][j].tokens) != id
      {
        assert ns[1..][j] == ns[j + 1];
      }
      FirstWithIdAt(ns[1..], id, i - 1);
    }
  }

  function FirstWithId(ns: seq<Node>, id: string): (r: Option<Node>)
    ensures r.Some? ==> r.value in ns && LabelId(r.value.tokens) == id
    ensures r.None? ==> forall n :: n in ns ==> LabelId(n.tokens) != id
  {
    if ns == [] then None
    else if LabelId(ns[0].tokens) == id then Some(ns[0])
    else FirstWithId(ns[1..], id)
  }
}

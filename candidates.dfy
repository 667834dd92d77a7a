/** Candidate search: `find_candidate` looks through the tree for nodes whose
    last label token is the paragraph marker of a directive that did not match
    any label literally, and `find_misparsed_node` attaches the best of them
    to the change as a tentative match. */
module Candidates {
  import opened Wrappers
  import opened Seqs
  import opened Tree
  import opened Labels
  import opened Amendments

  predicate EndsWith(n: Node, marker: string)
  {
    LastToken(n.tokens) == Some(marker)
  }

  function Depth(n: Node): int
  {
    |n.tokens|
  }

  /** Sort key putting deeper nodes first. */
  function DeeperFirst(n: Node): int
  {
    -Depth(n)
  }

  /** The nodes that may be returned: they carry the marker and, once some
      labels are claimed, are not impossible given them. */
  ghost predicate Qualifies(root: Node, marker: string, amended: seq<string>, n: Node)
  {
    n in Preorder(root) && EndsWith(n, marker) &&
    (amended == [] || !ImpossibleLabel(n, amended))
  }

  /** The qualifying nodes in depth-first order. */
  function Eligible(root: Node, marker: string, amended: seq<string>): seq<Node>
  {
    var all := Filter(Preorder(root), n => EndsWith(n, marker));
    if amended == [] then all else Filter(all, n => !ImpossibleLabel(n, amended))
  }

  /** `find_candidate(root, marker, amended_labels)`: exactly the qualifying
      nodes, deepest first. */
  function FindCandidate(root: Node, marker: string, amended: seq<string>): (r: seq<Node>)
    ensures forall n :: n in r <==> Qualifies(root, marker, amended, n)
    ensures forall i, j :: 0 <= i < j < |r| ==> Depth(r[i]) >= Depth(r[j])
  {
    var pool := Eligible(root, marker, amended);
    EligibleMembers(root, marker, amended);
    SortBySorted(pool, DeeperFirst);
    var r := SortBy(pool, DeeperFirst);
    assert forall n :: n in r <==> n in multiset(pool);
    assert forall i, j :: 0 <= i < j < |r| ==> DeeperFirst(r[i]) <= DeeperFirst(r[j]);
    r
  }

  lemma EligibleMembers(root: Node, marker: string, amended: seq<string>)
    ensures forall n :: n in Eligible(root, marker, amended) <==> Qualifies(root, marker, amended, n)
  {
  }

  /** The first candidate is at least as deep as every qualifying node. */
  lemma DeepestFirst(root: Node, marker: string, amended: seq<string>, n: Node)
    requires Qualifies(root, marker, amended, n)
    ensures FindCandidate(root, marker, amended) != []
    ensures Depth(FindCandidate(root, marker, amended)[0]) >= Depth(n)
  {
    var r := FindCandidate(root, marker, amended);
    assert n in r;
    var k :| 0 <= k < |r| && r[k] == n;
    if k > 0 {
      assert Depth(r[0]) >= Depth(r[k]);
    }
  }

  lemma DeepestFirstAll(root: Node, marker: string, amended: seq<string>)
    ensures var r := FindCandidate(root, marker, amended);
            r != [] ==> forall n :: Qualifies(root, marker, amended, n) ==> Depth(r[0]) >= Depth(n)
  {
    forall n | Qualifies(root, marker, amended, n)
      ensures Depth(FindCandidate(root, marker, amended)[0]) >= Depth(n)
    {
      DeepestFirst(root, marker, amended, n);
    }
  }

  /** Among nodes of equal depth, the search keeps depth-first order. */
  lemma FindCandidateTieBreak(root: Node, marker: string, amended: seq<string>, d: int)
    ensures Filter(FindCandidate(root, marker, amended), KeyIs(DeeperFirst, -d))
         == Filter(Eligible(root, marker, amended), KeyIs(DeeperFirst, -d))
  {
    SortByStable(Eligible(root, marker, amended), DeeperFirst, -d);
  }

  /** `find_misparsed_node(root, marker, change, amended_labels)`: when a
      candidate exists the change gets the best one as its node and is marked
      tentative; otherwise it is returned as it came. */
  function FindMisparsedNode(root: Node, marker: string, change: Change,
                             amended: seq<string>): (r: Change)
    ensures r.(node := change.node, candidate := change.candidate) == change
    ensures r.node.Some? <==> change.node.Some? || exists n :: Qualifies(root, marker, amended, n)
    ensures (exists n :: Qualifies(root, marker, amended, n)) ==>
              r.candidate && r.node.Some? && Qualifies(root, marker, amended, r.node.value) &&
              forall n :: Qualifies(root, marker, amended, n) ==> Depth(r.node.value) >= Depth(n)
    ensures (forall n :: !Qualifies(root, marker, amended, n)) ==> r == change
  {
    var found := FindCandidate(root, marker, amended);
    if found == [] then
      assert forall n :: !Qualifies(root, marker, amended, n) by {
        forall n ensures !Qualifies(root, marker, amended, n) {
          assert n !in found;
        }
      }
      change
    else
      DeepestFirstAll(root, marker, amended);
      assert found[0] in found;
      change.(node := Some(found[0]), candidate := true)
  }
}

/** The trees of the candidate-search tests, and what the search returns on
    them. */
module CandidateCases {
  import opened Wrappers
  import opened Tree
  import opened Amendments
  import opened Labels
  import opened Candidates

  function Leaf(tokens: seq<string>, text: string): Node
  {
    Node(tokens, text, None, RegText, [])
  }

  /** 200 with sections 200-1 (holding 200-1-i), 200-2 and 200-3 (holding
      200-3-a). */
  function BuildTree(): Node
  {
    Node(["200"], "root", None, RegText,
         [Node(["200", "1"], "n1", None, RegText, [Leaf(["200", "1", "i"], "n1i")]),
          Leaf(["200", "2"], "n2"),
          Node(["200", "3"], "n3", None, RegText, [Leaf(["200", "3", "a"], "n3a")])])
  }

  lemma BuildTreePreorder()
    ensures var t := BuildTree();
            Preorder(t) == [t, t.children[0], t.children[0].children[0], t.children[1],
                            t.children[2], t.children[2].children[0]]
  {
    var t := BuildTree();
    var n1, n2, n3 := t.children[0], t.children[1], t.children[2];
    assert Preorder(n1) == [n1, n1.children[0]];
    assert Preorder(n2) == [n2];
    assert Preorder(n3) == [n3, n3.children[0]];
    assert PreorderAll(t.children[2..]) == Preorder(n3);
    assert PreorderAll(t.children[1..]) == Preorder(n2) + Preorder(n3);
  }

  lemma BuildTreeQualifying(t: Node, n: Node)
    requires t == BuildTree() && Qualifies(t, "i", [], n)
    ensures n == t.children[0].children[0]
  {
    BuildTreePreorder();
    var p := Preorder(t);
    assert !EndsWith(p[0], "i") && !EndsWith(p[1], "i");
    assert !EndsWith(p[3], "i") && !EndsWith(p[4], "i") && !EndsWith(p[5], "i");
  }

  /** The only node ending in `i` is found. */
  lemma FindCandidateSingle(t: Node)
    requires t == BuildTree()
    ensures FindCandidate(t, "i", []) != []
    ensures FindCandidate(t, "i", [])[0] == t.children[0].children[0]
    ensures FindCandidate(t, "i", [])[0].text == "n1i"
  {
    BuildTreePreorder();
    var leaf := t.children[0].children[0];
    assert Qualifies(t, "i", [], leaf);
    var r := FindCandidate(t, "i", []);
    assert leaf in r;
    BuildTreeQualifying(t, r[0]);
  }

  /** The `find_misparsed_node` test: a PUT without a node gets 200-1-i as
      a tentative node and keeps its action. */
  lemma FindMisparsedCase(t: Node, c: Change)
    requires t == BuildTree() && c == Change(Put, None, None, None, None, false)
    ensures var r := FindMisparsedNode(t, "i", c, []);
            r.action == Put && r.candidate && r.node == Some(t.children[0].children[0])
  {
    FindCandidateSingle(t);
  }

  /** No node ends in `j`: the search comes back empty. */
  lemma FindCandidateAbsent(t: Node)
    requires t == BuildTree()
    ensures FindCandidate(t, "j", []) == []
  {
    BuildTreePreorder();
    var p := Preorder(t);
    assert !EndsWith(p[0], "j") && !EndsWith(p[1], "j") && !EndsWith(p[2], "j");
    assert !EndsWith(p[3], "j") && !EndsWith(p[4], "j") && !EndsWith(p[5], "j");
  }

  /** The test tree with 200-2-i-i added under 200-2. */
  function DeeperTree(): Node
  {
    Node(["200"], "root", None, RegText,
         [Node(["200", "1"], "n1", None, RegText, [Leaf(["200", "1", "i"], "n1i")]),
          Node(["200", "2"], "n2", None, RegText, [Leaf(["200", "2", "i", "i"], "n3c")]),
          Node(["200", "3"], "n3", None, RegText, [Leaf(["200", "3", "a"], "n3a")])])
  }

  lemma DeeperTreePreorder()
    ensures var t := DeeperTree();
            Preorder(t) == [t, t.children[0], t.children[0].children[0], t.children[1],
                            t.children[1].children[0], t.children[2],
                            t.children[2].children[0]]
  {
    var t := DeeperTree();
    var n1, n2, n3 := t.children[0], t.children[1], t.children[2];
    assert Preorder(n1) == [n1, n1.children[0]];
    assert Preorder(n2) == [n2, n2.children[0]];
    assert Preorder(n3) == [n3, n3.children[0]];
    assert PreorderAll(t.children[2..]) == Preorder(n3);
    assert PreorderAll(t.children[1..]) == Preorder(n2) + Preorder(n3);
  }

  lemma DeeperTreeQualifying(t: Node, n: Node)
    requires t == DeeperTree() && Qualifies(t, "i", [], n)
    ensures n.tokens == ["200", "1", "i"] || n.tokens == ["200", "2", "i", "i"]
  {
    DeeperTreePreorder();
    var p := Preorder(t);
    assert !EndsWith(p[0], "i") && !EndsWith(p[1], "i") && !EndsWith(p[3], "i");
    assert !EndsWith(p[5], "i") && !EndsWith(p[6], "i");
  }

  /** With both 200-1-i and 200-2-i-i ending in `i`, the deeper one comes
      first. */
  lemma FindCandidatePrefersDeeper(t: Node)
    requires t == DeeperTree()
    ensures FindCandidate(t, "i", []) != []
    ensures FindCandidate(t, "i", [])[0].tokens == ["200", "2", "i", "i"]
  {
    DeeperTreePreorder();
    var deep := t.children[1].children[0];
    assert Qualifies(t, "i", [], deep);
    DeepestFirst(t, "i", [], deep);
    var r := FindCandidate(t, "i", []);
    DeeperTreeQualifying(t, r[0]);
  }

  /** The tree of the impossible-label test: 200-1 holding 200-1-a (with
      200-1-a-1-i below it), 200-1-b and 200-1-i. */
  function SiblingTree(): Node
  {
    Node(["200"], "root", None, RegText,
         [Node(["200", "1"], "", None, RegText,
               [Node(["200", "1", "a"], "", None, RegText, [Leaf(["200", "1", "a", "1", "i"], "")]),
                Leaf(["200", "1", "b"], ""),
                Leaf(["200", "1", "i"], "")])])
  }

  lemma SiblingTreePreorder()
    ensures var t := SiblingTree();
            var n1 := t.children[0];
            Preorder(t) == [t, n1, n1.children[0], n1.children[0].children[0],
                            n1.children[1], n1.children[2]]
  {
    var t := SiblingTree();
    var n1 := t.children[0];
    var a, b, i := n1.children[0], n1.children[1], n1.children[2];
    assert Preorder(a) == [a, a.children[0]];
    assert PreorderAll(n1.children[2..]) == [i];
    assert PreorderAll(n1.children[1..]) == [b, i];
    assert Preorder(n1) == [n1, a, a.children[0], b, i];
  }

  /** 200-1-a-1-i is neither a sibling nor a child of 200-1-a or 200-1-b. */
  lemma NestedNodeImpossible()
    ensures ImpossibleLabel(Leaf(["200", "1", "a", "1", "i"], ""), ["200-1-a", "200-1-b"])
  {
    assert LabelId(["200", "1", "a", "1"]) == "200-1-a-1";
  }

  lemma SiblingTreeQualifying(t: Node, amended: seq<string>, n: Node)
    requires t == SiblingTree() && amended == ["200-1-a", "200-1-b"]
    requires Qualifies(t, "i", amended, n)
    ensures n.tokens == ["200", "1", "i"]
  {
    SiblingTreePreorder();
    var p := Preorder(t);
    assert !EndsWith(p[0], "i") && !EndsWith(p[1], "i") && !EndsWith(p[2], "i");
    assert !EndsWith(p[4], "i");
    NestedNodeImpossible();
    assert p[3] == Leaf(["200", "1", "a", "1", "i"], "");
  }

  /** With 200-1-a and 200-1-b claimed, the deeper 200-1-a-1-i is impossible
      and 200-1-i, their sibling, is the candidate. */
  lemma FindCandidateSkipsImpossible(t: Node, amended: seq<string>)
    requires t == SiblingTree() && amended == ["200-1-a", "200-1-b"]
    ensures FindCandidate(t, "i", amended) != []
    ensures FindCandidate(t, "i", amended)[0].tokens == ["200", "1", "i"]
  {
    SiblingTreePreorder();
    var sibling := t.children[0].children[2];
    assert LabelId(["200", "1"]) == "200-1";
    assert InFamily(sibling.tokens, amended[0]);
    assert Qualifies(t, "i", amended, sibling);
    var r := FindCandidate(t, "i", amended);
    SiblingTreeQualifying(t, amended, r[0]);
  }
}

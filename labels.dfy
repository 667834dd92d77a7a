/** The two label-validity predicates of the amendment engine:
    `bad_label` (the token sequence of a regulation-text label breaks the
    marker progression) and `impossible_label` (a node cannot be the target of
    a directive, given the labels already claimed in the same batch). */
module Labels {
  import opened Wrappers
  import opened Strings
  import opened Tree

  predicate IsNumber(t: string)
  {
    |t| >= 1 && forall k :: 0 <= k < |t| ==> IsDigit(t[k])
  }

  predicate IsLowerLetter(t: string)
  {
    |t| == 1 && IsLower(t[0])
  }

  predicate IsUpperLetter(t: string)
  {
    |t| == 1 && IsUpper(t[0])
  }

  predicate IsLowerRoman(t: string)
  {
    |t| >= 1 && forall k :: 0 <= k < |t| ==> t[k] in "ivxlcdm"
  }

  /** The marker class expected at position `depth` of a regulation-text
      label: part and section numbers, then paragraph levels (a), (1), (i),
      (A), repeating. */
  predicate FitsLevel(depth: nat, t: string)
  {
    if depth < 2 then IsNumber(t)
    else
      match (depth - 2) % 4
      case 0 => IsLowerLetter(t)
      case 1 => IsNumber(t)
      case 2 => IsLowerRoman(t)
      case _ => IsUpperLetter(t)
  }

  /** `bad_label(node)`: a regulation-text node whose label has a token of the
      wrong class for its depth. Other node kinds are never bad. */
  predicate BadLabel(n: Node)
  {
    n.nodeType == RegText &&
    exists i :: 0 <= i < |n.tokens| && !FitsLevel(i, n.tokens[i])
  }

  /** The label a token sequence hangs under (`label[:-1]`). */
  function Parent(lbl: seq<string>): seq<string>
  {
    if |lbl| == 0 then [] else lbl[..|lbl| - 1]
  }

  /** A node labelled `lbl` can sit directly under the claimed label id
      `claimed` (the claimed label is its parent) or beside it (both share a
      parent). */
  predicate InFamily(lbl: seq<string>, claimed: string)
  {
    var parentId := LabelId(Parent(lbl));
    |lbl| >= 1 &&
    (claimed == parentId ||
     (StartsWith(claimed, parentId + "-") && '-' !in claimed[|parentId| + 1..]))
  }

  /** `impossible_label(node, amended_labels)`: the node is neither a sibling
      nor a child of any label claimed so far. */
  predicate ImpossibleLabel(n: Node, amended: seq<string>)
  {
    !exists k :: 0 <= k < |amended| && InFamily(n.tokens, amended[k])
  }

  /** Extending a bad label keeps it bad: once a token is out of place, no
      deeper marker repairs it. */
  lemma BadLabelExtends(n: Node, more: seq<string>)
    requires BadLabel(n)
    ensures BadLabel(n.(tokens := n.tokens + more))
  {
    var i :| 0 <= i < |n.tokens| && !FitsLevel(i, n.tokens[i]);
    assert (n.tokens + more)[i] == n.tokens[i];
  }

  /** Claiming more labels can only make fewer nodes impossible. */
  lemma ImpossibleLabelAntitone(n: Node, amended: seq<string>, more: seq<string>)
    requires ImpossibleLabel(n, amended + more)
    ensures ImpossibleLabel(n, amended)
  {
    forall k | 0 <= k < |amended| ensures !InFamily(n.tokens, amended[k]) {
      assert (amended + more)[k] == amended[k];
    }
  }

  /** The four labels of the `bad_label` test: one well-formed, three with a
      token of the wrong class (a roman numeral where a number belongs, a
      roman numeral as a section number, a capital where a lower-case letter
      belongs). */
  lemma BadLabelCases()
    ensures !BadLabel(Node(["205", "4", "a", "1", "ii", "A"], "text", None, RegText, []))
    ensures BadLabel(Node(["205", "38", "i", "vii", "A"], "text", None, RegText, []))
    ensures BadLabel(Node(["205", "ii"], "text", None, RegText, []))
    ensures BadLabel(Node(["205", "38", "A", "vii", "A"], "text", None, RegText, []))
  {
    var good := ["205", "4", "a", "1", "ii", "A"];
    assert FitsLevel(0, good[0]) && FitsLevel(1, good[1]) && FitsLevel(2, good[2]);
    assert FitsLevel(3, good[3]) && FitsLevel(4, good[4]) && FitsLevel(5, good[5]);
    var roman := Node(["205", "38", "i", "vii", "A"], "text", None, RegText, []);
    assert !IsDigit(roman.tokens[3][0]);
    assert !FitsLevel(3, roman.tokens[3]);
    var short := Node(["205", "ii"], "text", None, RegText, []);
    assert !IsDigit(short.tokens[1][0]);
    assert !FitsLevel(1, short.tokens[1]);
    var capital := Node(["205", "38", "A", "vii", "A"], "text", None, RegText, []);
    assert !FitsLevel(2, capital.tokens[2]);
  }

  /** The `impossible_label` test, first half: with 205-35-c-1 and
      205-35-c-2 claimed, 205-35-v is impossible. */
  lemma ImpossibleLabelRejects()
    ensures ImpossibleLabel(Node(["205", "35", "v"], "", None, RegText, []),
                            ["205-35-c-1", "205-35-c-2"])
  {
  }

  /** Second half: 205-35-c-1-i, a child of a claimed label, is possible. */
  lemma ImpossibleLabelAccepts()
    ensures !ImpossibleLabel(Node(["205", "35", "c", "1", "i"], "", None, RegText, []),
                             ["205-35-c-1", "205-35-c-2"])
  {
    var amended := ["205-35-c-1", "205-35-c-2"];
    assert LabelId(["205", "35", "c", "1"]) == amended[0];
    assert InFamily(["205", "35", "c", "1", "i"], amended[0]);
  }
}

/** `match_labels_and_changes`: each directive, in order, is filed under its
    resolved label id. Moves and deletions need no tree; every other action
    needs the tree, takes the node found at its label, or failing that the
    best candidate for its final marker, and is dropped when neither
    exists. The ids filed so far constrain later candidate searches. */
module Matcher {
  import opened Wrappers
  import opened Strings
  import opened Tree
  import opened Amendments
  import opened Candidates
  import opened AmendMaps

  /** The change a directive starts from: its action and field, and for a
      move or a redesignation the resolved destination. */
  function BaseChange(a: Amendment): Change
  {
    Change(a.action, None,
           if (a.action == Move || a.action == Designate) && a.destination.Some? then Some(TemplateTokens(a.destination.value))
           else None,
           a.field, None, false)
  }

  /** The amend map built so far and the label ids claimed so far. */
  datatype MatchState = MatchState(entries: seq<Entry>, claimed: seq<string>)

  function Record(st: MatchState, key: string, c: Change): (r: MatchState)
    requires DistinctKeys(st.entries)
    ensures DistinctKeys(r.entries)
  {
    MatchState(AppendChange(st.entries, key, c), st.claimed + [key])
  }

  /** One pass of the loop body. */
  function MatchOne(st: MatchState, a: Amendment, root: Option<Node>): (r: MatchState)
    requires DistinctKeys(st.entries)
    ensures DistinctKeys(r.entries)
  {
    var key := AmendedId(a);
    if a.action == Move || a.action == Delete then Record(st, key, BaseChange(a))
    else
      match root
      case None => st
      case Some(t) =>
        match Find(t, key)
        case Some(n) => Record(st, key, BaseChange(a).(node := Some(n)))
        case None =>
          match LastToken(AmendedLabel(a))
          case None => st
          case Some(marker) =>
            var c := FindMisparsedNode(t, marker, BaseChange(a), st.claimed);
            if c.node.Some? then Record(st, key, c) else st
  }

  function MatchAll(amends: seq<Amendment>, root: Option<Node>): (r: MatchState)
    ensures DistinctKeys(r.entries)
  {
    if amends == [] then MatchState([], [])
    else MatchOne(MatchAll(amends[..|amends| - 1], root), amends[|amends| - 1], root)
  }

  /** `match_labels_and_changes(amendments, section_node)`. */
  function Matched(amends: seq<Amendment>, root: Option<Node>): (r: seq<Entry>)
    ensures DistinctKeys(r)
  {
    MatchAll(amends, root).entries
  }

  /** `change` is filed under `key`. */
  predicate Filed(m: seq<Entry>, key: string, c: Change)
  {
    exists e :: e in m && e.key == key && c in e.changes
  }

  lemma AppendFiles(m: seq<Entry>, key: string, c: Change)
    requires DistinctKeys(m)
    ensures Filed(AppendChange(m, key, c), key, c)
    ensures forall k, d :: Filed(m, k, d) ==> Filed(AppendChange(m, key, c), k, d)
  {
    var r := AppendChange(m, key, c);
    var cs := Lookup(r, key).value;
    assert Entry(key, cs) in r && c in cs;
    forall k, d | Filed(m, k, d) ensures Filed(r, k, d) {
      var e :| e in m && e.key == k && d in e.changes;
      if k == key {
        assert Lookup(m, key) == Some(e.changes);
        assert d in cs;
        assert Entry(key, cs) in r;
      } else {
        assert e in r;
      }
    }
  }

  /** A filed change that came from directive `a`: same action and field,
      and either a definitive change carrying the node found at the
      directive's label, or a tentative one carrying a node whose last token
      is the directive's final marker. */
  predicate Explains(a: Amendment, key: string, c: Change)
  {
    key == AmendedId(a) &&
    c.(node := None, candidate := false) == BaseChange(a) &&
    (c.node.Some? && !c.candidate ==> LabelId(c.node.value.tokens) == key) &&
    (c.candidate ==> c.node.Some? && |AmendedLabel(a)| >= 1 &&
                     LastToken(c.node.value.tokens) == LastToken(AmendedLabel(a)))
  }

  /** Every change in the map is explained by one of the directives. */
  predicate AllExplained(amends: seq<Amendment>, m: seq<Entry>)
  {
    forall e, c :: e in m && c in e.changes ==>
      exists i :: 0 <= i < |amends| && Explains(amends[i], e.key, c)
  }

  lemma AppendExplained(amends: seq<Amendment>, m: seq<Entry>, a: Amendment, c: Change)
    requires DistinctKeys(m) && AllExplained(amends, m)
    requires Explains(a, AmendedId(a), c)
    ensures AllExplained(amends + [a], AppendChange(m, AmendedId(a), c))
  {
    var key := AmendedId(a);
    var r := AppendChange(m, key, c);
    var all := amends + [a];
    assert all[|amends|] == a;
    forall e, d | e in r && d in e.changes
      ensures exists i :: 0 <= i < |all| && Explains(all[i], e.key, d)
    {
      if e.key == key {
        assert Lookup(r, key) == Some(e.changes);
        if d != c {
          var prev := Lookup(m, key).value;
          assert e.changes == prev + [c];
          assert d in prev;
          assert Entry(key, prev) in m;
          var i :| 0 <= i < |amends| && Explains(amends[i], key, d);
          assert all[i] == amends[i];
        }
      } else {
        assert e in m;
        var i :| 0 <= i < |amends| && Explains(amends[i], e.key, d);
        assert all[i] == amends[i];
      }
    }
  }

  lemma ExplainedMore(amends: seq<Amendment>, a: Amendment, m: seq<Entry>)
    requires AllExplained(amends, m)
    ensures AllExplained(amends + [a], m)
  {
    forall e, d | e in m && d in e.changes
      ensures exists i :: 0 <= i < |amends + [a]| && Explains((amends + [a])[i], e.key, d)
    {
      var i :| 0 <= i < |amends| && Explains(amends[i], e.key, d);
      assert (amends + [a])[i] == amends[i];
    }
  }

  /** Whatever the step files, it files a change the directive explains. */
  lemma MatchOneExplained(st: MatchState, a: Amendment, root: Option<Node>)
    requires DistinctKeys(st.entries)
    ensures var r := MatchOne(st, a, root);
            r == st ||
            exists c :: Explains(a, AmendedId(a), c) && r == Record(st, AmendedId(a), c)
  {
    var key := AmendedId(a);
    if a.action == Move || a.action == Delete {
      assert Explains(a, key, BaseChange(a));
    } else if root.Some? {
      var t := root.value;
      match Find(t, key)
      case Some(n) =>
        assert Explains(a, key, BaseChange(a).(node := Some(n)));
      case None =>
        match LastToken(AmendedLabel(a))
        case None =>
        case Some(marker) =>
          var c := FindMisparsedNode(t, marker, BaseChange(a), st.claimed);
          if c.node.Some? {
            assert c != BaseChange(a);
            assert EndsWith(c.node.value, marker);
            assert Explains(a, key, c);
          }
    }
  }

  /** Every filed change is explained by a directive: it is filed under that
      directive's label id, keeps its action, field and destination, and
      carries either the node with exactly that label id or, tentatively, a
      node ending in the directive's final marker. */
  lemma {:induction false} MatchedExplained(amends: seq<Amendment>, root: Option<Node>)
    ensures AllExplained(amends, Matched(amends, root))
  {
    if amends != [] {
      var init := amends[..|amends| - 1];
      var a := amends[|amends| - 1];
      assert amends == init + [a];
      MatchedExplained(init, root);
      var st := MatchAll(init, root);
      MatchOneExplained(st, a, root);
      if MatchOne(st, a, root) == st {
        ExplainedMore(init, a, st.entries);
      } else {
        var c :| Explains(a, AmendedId(a), c) && MatchOne(st, a, root) == Record(st, AmendedId(a), c);
        AppendExplained(init, st.entries, a, c);
      }
    }
  }

  /** A tentative change ends in the same marker as the label it is filed
      under: the candidate's last token is the last piece of the key. */
  lemma CandidateMarker(a: Amendment, key: string, c: Change)
    requires Explains(a, key, c) && c.candidate
    ensures c.node.Some? && LastToken(c.node.value.tokens) == LastToken(Split(key, '-'))
  {
    SplitJoin(AmendedLabel(a), '-');
  }

  /** Every key of the map is the label id of some directive. */
  lemma MatchedKeys(amends: seq<Amendment>, root: Option<Node>, k: string)
    requires HasKey(Matched(amends, root), k)
    ensures exists i :: 0 <= i < |amends| && AmendedId(amends[i]) == k
  {
    MatchedExplained(amends, root);
    var m := Matched(amends, root);
    var j :| 0 <= j < |m| && m[j].key == k;
    // an entry is created only by filing a change into it
    EntriesNonEmpty(amends, root);
    var c := m[j].changes[0];
    assert m[j] in m && c in m[j].changes;
  }

  /** No entry of the map is empty: keys come into being by appending. */
  lemma {:induction false} EntriesNonEmpty(amends: seq<Amendment>, root: Option<Node>)
    ensures forall e :: e in Matched(amends, root) ==> e.changes != []
  {
    if amends != [] {
      var init := amends[..|amends| - 1];
      var a := amends[|amends| - 1];
      EntriesNonEmpty(init, root);
      var st := MatchAll(init, root);
      MatchOneExplained(st, a, root);
      if MatchOne(st, a, root) != st {
        var c :| Explains(a, AmendedId(a), c) && MatchOne(st, a, root) == Record(st, AmendedId(a), c);
        var r := AppendChange(st.entries, AmendedId(a), c);
        forall e | e in r ensures e.changes != [] {
          if e.key == AmendedId(a) {
            assert Lookup(r, e.key) == Some(e.changes);
          } else {
            assert e in st.entries;
          }
        }
      }
    }
  }

  /** Moves and deletions are never dropped: each is filed under its own
      label id exactly as the directive gives it, tree or no tree. */
  lemma {:induction false} MoveDeleteFiled(amends: seq<Amendment>, root: Option<Node>, i: nat)
    requires i < |amends| && (amends[i].action == Move || amends[i].action == Delete)
    ensures Filed(Matched(amends, root), AmendedId(amends[i]), BaseChange(amends[i]))
  {
    var init := amends[..|amends| - 1];
    var a := amends[|amends| - 1];
    var st := MatchAll(init, root);
    if i == |amends| - 1 {
      AppendFiles(st.entries, AmendedId(a), BaseChange(a));
    } else {
      assert init[i] == amends[i];
      MoveDeleteFiled(init, root, i);
      MatchOneExplained(st, a, root);
      if MatchOne(st, a, root) != st {
        var c :| Explains(a, AmendedId(a), c) && MatchOne(st, a, root) == Record(st, AmendedId(a), c);
        AppendFiles(st.entries, AmendedId(a), c);
      }
    }
  }

  /** The state after directive `i` is one step from the state before it. */
  lemma MatchAllPrefix(amends: seq<Amendment>, root: Option<Node>, i: nat)
    requires i < |amends|
    ensures MatchAll(amends[..i + 1], root) == MatchOne(MatchAll(amends[..i], root), amends[i], root)
  {
    assert amends[..i + 1][..i] == amends[..i];
  }

  /** A step never unfiles a change. */
  lemma FiledKept(st: MatchState, a: Amendment, root: Option<Node>, k: string, c: Change)
    requires DistinctKeys(st.entries) && Filed(st.entries, k, c)
    ensures Filed(MatchOne(st, a, root).entries, k, c)
  {
    MatchOneExplained(st, a, root);
    if MatchOne(st, a, root) != st {
      var d :| Explains(a, AmendedId(a), d) && MatchOne(st, a, root) == Record(st, AmendedId(a), d);
      AppendFiles(st.entries, AmendedId(a), d);
    }
  }

  /** What is filed after the first `j` directives stays filed to the end. */
  lemma {:induction false} FiledPersists(amends: seq<Amendment>, root: Option<Node>, j: nat, k: string, c: Change)
    requires j <= |amends| && Filed(Matched(amends[..j], root), k, c)
    ensures Filed(Matched(amends, root), k, c)
    decreases |amends| - j
  {
    if j < |amends| {
      MatchAllPrefix(amends, root, j);
      FiledKept(MatchAll(amends[..j], root), amends[j], root, k, c);
      FiledPersists(amends, root, j + 1, k, c);
    } else {
      assert amends[..j] == amends;
    }
  }

  /** Any directive other than a move or deletion whose label id is in the
      tree is filed under that id, definitively, with the node found there,
      wherever it stands in the list. */
  lemma ExactFiled(amends: seq<Amendment>, t: Node, i: nat, n: Node)
    requires i < |amends| && amends[i].action != Move && amends[i].action != Delete
    requires Find(t, AmendedId(amends[i])) == Some(n)
    ensures Filed(Matched(amends, Some(t)), AmendedId(amends[i]), BaseChange(amends[i]).(node := Some(n)))
  {
    var a := amends[i];
    var c := BaseChange(a).(node := Some(n));
    MatchAllPrefix(amends, Some(t), i);
    var st := MatchAll(amends[..i], Some(t));
    ExactStep(st, a, t, n);
    AppendFiles(st.entries, AmendedId(a), c);
    FiledPersists(amends, Some(t), i + 1, AmendedId(a), c);
  }

  /** Any directive other than a move or deletion whose label id is not in
      the tree is filed, as the misparsed-node change for its final marker,
      exactly when some node qualifies under the ids claimed before it; when
      none does, its step files nothing. */
  lemma CandidateFiled(amends: seq<Amendment>, t: Node, i: nat, marker: string)
    requires i < |amends| && amends[i].action != Move && amends[i].action != Delete
    requires Find(t, AmendedId(amends[i])) == None
    requires LastToken(AmendedLabel(amends[i])) == Some(marker)
    ensures var claimed := MatchAll(amends[..i], Some(t)).claimed;
            var c := FindMisparsedNode(t, marker, BaseChange(amends[i]), claimed);
            (exists n :: Qualifies(t, marker, claimed, n)) ==>
              c.candidate && Filed(Matched(amends, Some(t)), AmendedId(amends[i]), c)
    ensures var claimed := MatchAll(amends[..i], Some(t)).claimed;
            (forall n :: !Qualifies(t, marker, claimed, n)) ==>
              MatchAll(amends[..i + 1], Some(t)) == MatchAll(amends[..i], Some(t))
  {
    var a := amends[i];
    MatchAllPrefix(amends, Some(t), i);
    var st := MatchAll(amends[..i], Some(t));
    var c := FindMisparsedNode(t, marker, BaseChange(a), st.claimed);
    if exists n :: Qualifies(t, marker, st.claimed, n) {
      var n :| Qualifies(t, marker, st.claimed, n);
      CandidateStep(st, a, t, marker, n);
      AppendFiles(st.entries, AmendedId(a), c);
      FiledPersists(amends, Some(t), i + 1, AmendedId(a), c);
    }
  }

  /** Without a tree only moves and deletions are filed. */
  lemma {:induction false} NoTreeMoveDelete(amends: seq<Amendment>)
    ensures forall e, c :: e in Matched(amends, None) && c in e.changes ==>
              c.action == Move || c.action == Delete
  {
    if amends != [] {
      var init := amends[..|amends| - 1];
      var a := amends[|amends| - 1];
      NoTreeMoveDelete(init);
      var st := MatchAll(init, None);
      if a.action == Move || a.action == Delete {
        var r := AppendChange(st.entries, AmendedId(a), BaseChange(a));
        forall e, c | e in r && c in e.changes ensures c.action == Move || c.action == Delete {
          if e.key == AmendedId(a) {
            assert Lookup(r, e.key) == Some(e.changes);
            if c != BaseChange(a) {
              var prev := Lookup(st.entries, e.key).value;
              assert c in prev && Entry(e.key, prev) in st.entries;
            }
          } else {
            assert e in st.entries;
          }
        }
      }
    }
  }

  /** A move or deletion is filed as it comes. */
  lemma MoveDeleteStep(st: MatchState, a: Amendment, root: Option<Node>)
    requires DistinctKeys(st.entries) && (a.action == Move || a.action == Delete)
    ensures MatchOne(st, a, root) == Record(st, AmendedId(a), BaseChange(a))
  {
  }

  /** Any other directive whose label is in the tree is filed definitively
      with the node found there. */
  lemma ExactStep(st: MatchState, a: Amendment, t: Node, n: Node)
    requires DistinctKeys(st.entries) && a.action != Move && a.action != Delete
    requires Find(t, AmendedId(a)) == Some(n)
    ensures MatchOne(st, a, Some(t)) == Record(st, AmendedId(a), BaseChange(a).(node := Some(n)))
  {
  }

  /** Any other directive whose label is not in the tree, but whose final
      marker ends some node that fits beside or under a claimed label, is
      filed tentatively with the best such node. */
  lemma CandidateStep(st: MatchState, a: Amendment, t: Node, marker: string, n: Node)
    requires DistinctKeys(st.entries) && a.action != Move && a.action != Delete
    requires Find(t, AmendedId(a)) == None
    requires LastToken(AmendedLabel(a)) == Some(marker)
    requires Qualifies(t, marker, st.claimed, n)
    ensures var c := FindMisparsedNode(t, marker, BaseChange(a), st.claimed);
            c.candidate && c.node.Some? && Qualifies(t, marker, st.claimed, c.node.value) &&
            MatchOne(st, a, Some(t)) == Record(st, AmendedId(a), c)
  {
  }

  /** Filing under a new key adds an entry at the end. */
  lemma FreshKey(m: seq<Entry>, k: string, c: Change)
    requires DistinctKeys(m) && !HasKey(m, k)
    ensures AppendChange(m, k, c) == m + [Entry(k, [c])]
  {
  }

  /** A single MOVE or DELETE is filed under its own label id, with or
      without a tree. */
  lemma MatchSingleMoveDelete(a: Amendment, root: Option<Node>)
    requires a.action == Move || a.action == Delete
    ensures Matched([a], root) == [Entry(AmendedId(a), [BaseChange(a)])]
  {
    assert [a][..0] == [];
    assert MatchAll([a], root) == MatchOne(MatchAll([], root), a, root);
    MoveDeleteStep(MatchState([], []), a, root);
    FreshKey([], AmendedId(a), BaseChange(a));
  }

  /** Any other single directive whose label is in the tree is filed under
      its label id with the node found there. */
  lemma MatchSingleExact(a: Amendment, t: Node, n: Node)
    requires a.action != Move && a.action != Delete
    requires Find(t, AmendedId(a)) == Some(n)
    ensures Matched([a], Some(t)) == [Entry(AmendedId(a), [BaseChange(a).(node := Some(n))])]
  {
    assert [a][..0] == [];
    assert MatchAll([a], Some(t)) == MatchOne(MatchAll([], Some(t)), a, Some(t));
    ExactStep(MatchState([], []), a, t, n);
    FreshKey([], AmendedId(a), BaseChange(a).(node := Some(n)));
  }

  /** Two directives are matched one after the other. */
  lemma MatchPair(a: Amendment, b: Amendment, root: Option<Node>)
    ensures MatchAll([a, b], root) == MatchOne(MatchOne(MatchState([], []), a, root), b, root)
  {
    assert [a, b][..1] == [a];
    assert [a][..0] == [];
    var st := MatchAll([a], root);
    assert MatchAll([a, b], root) == MatchOne(st, b, root);
    assert st == MatchOne(MatchAll([], root), a, root);
  }

  /** Two directives whose labels are both in the tree, under different
      label ids, give two definitive entries in directive order. */
  lemma MatchPairExact(a: Amendment, b: Amendment, t: Node, na: Node, nb: Node)
    requires a.action != Move && a.action != Delete && b.action != Move && b.action != Delete
    requires Find(t, AmendedId(a)) == Some(na) && Find(t, AmendedId(b)) == Some(nb)
    requires AmendedId(a) != AmendedId(b)
    ensures Matched([a, b], Some(t)) ==
            [Entry(AmendedId(a), [BaseChange(a).(node := Some(na))]),
             Entry(AmendedId(b), [BaseChange(b).(node := Some(nb))])]
  {
    var ca := BaseChange(a).(node := Some(na));
    var cb := BaseChange(b).(node := Some(nb));
    var st0 := MatchState([], []);
    var st := MatchOne(st0, a, Some(t));
    assert st.entries == [Entry(AmendedId(a), [ca])] by {
      ExactStep(st0, a, t, na);
      FreshKey([], AmendedId(a), ca);
    }
    assert !HasKey(st.entries, AmendedId(b));
    assert MatchOne(st, b, Some(t)).entries == st.entries + [Entry(AmendedId(b), [cb])] by {
      ExactStep(st, b, t, nb);
      FreshKey(st.entries, AmendedId(b), cb);
    }
    MatchPair(a, b, Some(t));
  }

  /** A directive found in the tree followed by one that is not: the second
      is filed under its own label id as a single candidate change whose
      node qualifies against the first directive's label. */
  lemma MatchPairCandidate(a: Amendment, b: Amendment, t: Node, na: Node, marker: string, nb: Node)
    requires a.action != Move && a.action != Delete && b.action != Move && b.action != Delete
    requires Find(t, AmendedId(a)) == Some(na) && Find(t, AmendedId(b)) == None
    requires AmendedId(a) != AmendedId(b)
    requires LastToken(AmendedLabel(b)) == Some(marker)
    requires Qualifies(t, marker, [AmendedId(a)], nb)
    ensures var m := Matched([a, b], Some(t));
            |m| == 2 && m[0] == Entry(AmendedId(a), [BaseChange(a).(node := Some(na))]) &&
            m[1].key == AmendedId(b) && |m[1].changes| == 1 &&
            m[1].changes[0].candidate && m[1].changes[0].node.Some? &&
            Qualifies(t, marker, [AmendedId(a)], m[1].changes[0].node.value)
  {
    MatchPair(a, b, Some(t));
    var st0 := MatchState([], []);
    ExactStep(st0, a, t, na);
    FreshKey([], AmendedId(a), BaseChange(a).(node := Some(na)));
    var st := MatchOne(st0, a, Some(t));
    assert st.claimed == [AmendedId(a)];
    CandidateStep(st, b, t, marker, nb);
    var cb := FindMisparsedNode(t, marker, BaseChange(b), st.claimed);
    FreshKey(st.entries, AmendedId(b), cb);
  }

  /** The matcher as the loop it is: each directive's change is appended
      into a fresh amend map and its label id to the claimed list. */
  method MatchLabelsAndChanges(amends: seq<Amendment>, root: Option<Node>) returns (m: AmendMap)
    ensures fresh(m) && m.Valid()
    ensures m.entries == Matched(amends, root)
  {
    m := new AmendMap();
    var claimed: seq<string> := [];
    for i := 0 to |amends|
      invariant m.Valid()
      invariant MatchState(m.entries, claimed) == MatchAll(amends[..i], root)
    {
      assert amends[..i + 1][..i] == amends[..i];
      var a := amends[i];
      var key := AmendedId(a);
      var change := BaseChange(a);
      var record := false;
      if a.action == Move || a.action == Delete {
        record := true;
      } else if root.Some? {
        var found := Find(root.value, key);
        if found.Some? {
          change := change.(node := found);
          record := true;
        } else {
          var marker := LastToken(AmendedLabel(a));
          if marker.Some? {
            change := FindMisparsedNode(root.value, marker.value, change, claimed);
            record := change.node.Some?;
          }
        }
      }
      if record {
        m.Append(key, change);
        claimed := claimed + [key];
      }
    }
    assert amends[..|amends|] == amends;
  }
}

/** The `match_labels_and_changes` tests. */
module MatcherCases {
  import opened Wrappers
  import opened Strings
  import opened Tree
  import opened Labels
  import opened Amendments
  import opened Candidates
  import opened AmendMaps
  import opened Matcher

  /** The template strings of the tests resolve to their concrete tokens
      (`TemplateJoin` states the rule for every template). */
  lemma SplitOne()
    ensures Split("200-?-1", '-') == ["200", "?", "1"]
  {
    SplitJoin(["200", "?", "1"], '-');
    assert Join(["200", "?", "1"], '-') == "200-?-1";
  }

  lemma ConcretesOne()
    ensures Concretes(["200", "?", "1"]) == ["200", "1"]
  {
  }

  lemma TemplateOne()
    ensures TemplateTokens("200-?-1") == ["200", "1"]
  {
    SplitOne();
    ConcretesOne();
  }

  lemma SplitTwo()
    ensures Split("200-?-2", '-') == ["200", "?", "2"]
  {
    SplitJoin(["200", "?", "2"], '-');
    assert Join(["200", "?", "2"], '-') == "200-?-2";
  }

  lemma ConcretesTwo()
    ensures Concretes(["200", "?", "2"]) == ["200", "2"]
  {
  }

  lemma TemplateTwo()
    ensures TemplateTokens("200-?-2") == ["200", "2"]
  {
    SplitTwo();
    ConcretesTwo();
  }

  lemma SplitDelete()
    ensures Split("200-?-1-a-i", '-') == ["200", "?", "1", "a", "i"]
  {
    SplitJoin(["200", "?", "1", "a", "i"], '-');
    assert Join(["200", "?", "1", "a", "i"], '-') == "200-?-1-a-i";
  }

  lemma ConcretesDelete()
    ensures Concretes(["200", "?", "1", "a", "i"]) == ["200", "1", "a", "i"]
  {
  }

  lemma TemplateDelete()
    ensures TemplateTokens("200-?-1-a-i") == ["200", "1", "a", "i"]
  {
    SplitDelete();
    ConcretesDelete();
  }

  lemma SplitReserve()
    ensures Split("200-?-2-a", '-') == ["200", "?", "2", "a"]
  {
    SplitJoin(["200", "?", "2", "a"], '-');
    assert Join(["200", "?", "2", "a"], '-') == "200-?-2-a";
  }

  lemma ConcretesReserve()
    ensures Concretes(["200", "?", "2", "a"]) == ["200", "2", "a"]
  {
  }

  lemma TemplateReserve()
    ensures TemplateTokens("200-?-2-a") == ["200", "2", "a"]
  {
    SplitReserve();
    ConcretesReserve();
  }

  lemma SplitCandidate()
    ensures Split("200-?-2-a-1-i", '-') == ["200", "?", "2", "a", "1", "i"]
  {
    SplitJoin(["200", "?", "2", "a", "1", "i"], '-');
    assert Join(["200", "?", "2", "a", "1", "i"], '-') == "200-?-2-a-1-i";
  }

  lemma ConcretesCandidate()
    ensures Concretes(["200", "?", "2", "a", "1", "i"]) == ["200", "2", "a", "1", "i"]
  {
  }

  lemma TemplateCandidate()
    ensures TemplateTokens("200-?-2-a-1-i") == ["200", "2", "a", "1", "i"]
  {
    SplitCandidate();
    ConcretesCandidate();
  }

  /** An amendment with the given action and template tokens, no field and
      no destination: the shape of every test directive except the MOVE.
      The template lemmas above show which template strings have these tokens. */
  predicate Directive(a: Amendment, action: Action, tokens: seq<string>)
  {
    a.action == action && AmendedLabel(a) == tokens && a.destination == None && a.field == None
  }

  /** Without a tree, MOVE 200-?-1 TO 200-?-2 is filed under 200-1 with
      destination 200-2. */
  lemma MatchMove(a: Amendment)
    requires a.action == Move && a.field == None && AmendedLabel(a) == ["200", "1"]
    requires a.destination.Some? && TemplateTokens(a.destination.value) == ["200", "2"]
    ensures Matched([a], None) == [Entry("200-1", [Change(Move, None, Some(["200", "2"]), None, None, false)])]
  {
    MatchSingleMoveDelete(a, None);
    assert LabelId(["200", "1"]) == "200-1";
  }

  /** Without a tree, DELETE 200-?-1-a-i is filed under 200-1-a-i. */
  lemma MatchDelete(a: Amendment)
    requires Directive(a, Delete, ["200", "1", "a", "i"])
    ensures Matched([a], None) == [Entry("200-1-a-i", [Change(Delete, None, None, None, None, false)])]
  {
    MatchSingleMoveDelete(a, None);
    assert AmendedId(a) == "200-1-a-i";
  }

  function Para(tokens: seq<string>, text: string, children: seq<Node>): Node
  {
    Node(tokens, text, None, RegText, children)
  }

  /** The section of the reserve and post/put tests: 200, 200-2, 200-2-a. */
  function SectionNode(): Node
  {
    Para(["200"], "root", [Para(["200", "2"], "n2", [Para(["200", "2", "a"], "n2a", [])])])
  }

  lemma SectionFind(t: Node)
    requires t == SectionNode()
    ensures Find(t, "200-2") == Some(t.children[0])
    ensures Find(t, "200-2-a") == Some(t.children[0].children[0])
  {
    var n2 := t.children[0];
    var n2a := n2.children[0];
    assert Preorder(n2a) == [n2a];
    assert Preorder(n2) == [n2, n2a];
    assert Preorder(t) == [t, n2, n2a];
    assert LabelId(t.tokens) == "200";
    assert LabelId(n2.tokens) == "200-2";
    assert LabelId(n2a.tokens) == "200-2-a";
  }

  /** RESERVE 200-?-2-a is filed under 200-2-a, definitively, with the node
      found there. */
  lemma MatchReserve(a: Amendment, t: Node)
    requires Directive(a, Reserve, ["200", "2", "a"]) && t == SectionNode()
    ensures Matched([a], Some(t)) ==
            [Entry("200-2-a", [Change(Reserve, Some(Para(["200", "2", "a"], "n2a", [])), None, None, None, false)])]
  {
    assert AmendedId(a) == "200-2-a";
    SectionFind(t);
    MatchSingleExact(a, t, t.children[0].children[0]);
  }

  /** POST 200-?-2 then PUT 200-?-2-a: two keys, both definitive, carrying
      the nodes found there. */
  lemma MatchPostPut(a: Amendment, b: Amendment, t: Node)
    requires Directive(a, Post, ["200", "2"])
    requires Directive(b, Put, ["200", "2", "a"])
    requires t == SectionNode()
    ensures Matched([a, b], Some(t)) ==
            [Entry("200-2", [Change(Post, Some(t.children[0]), None, None, None, false)]),
             Entry("200-2-a", [Change(Put, Some(t.children[0].children[0]), None, None, None, false)])]
  {
    assert AmendedId(a) == "200-2" && AmendedId(b) == "200-2-a" by {
      SectionIds();
    }
    SectionFind(t);
    MatchPairExact(a, b, t, t.children[0], t.children[0].children[0]);
  }

  lemma SectionIds()
    ensures LabelId(["200", "2"]) == "200-2"
    ensures LabelId(["200", "2", "a"]) == "200-2-a"
  {
    assert Join(["2", "a"], '-') == "2-a";
  }

  /** The tree of the candidate test: 200, 200-2, 200-2-i. */
  function CandidateTree(): Node
  {
    Para(["200"], "root", [Para(["200", "2"], "n2", [Para(["200", "2", "i"], "n2a", [])])])
  }

  lemma CandidateTreePreorder(t: Node)
    requires t == CandidateTree()
    ensures Preorder(t) == [t, t.children[0], t.children[0].children[0]]
    ensures Find(t, "200-2") == Some(t.children[0])
    ensures Find(t, "200-2-a-1-i") == None
  {
    var n2 := t.children[0];
    var n2i := n2.children[0];
    assert Preorder(n2i) == [n2i];
    assert Preorder(n2) == [n2, n2i];
    assert LabelId(t.tokens) == "200";
    assert LabelId(n2.tokens) == "200-2";
    assert LabelId(n2i.tokens) == "200-2-i";
  }

  /** Only 200-2-i ends in `i` and may sit under 200-2. */
  lemma CandidateQualifying(t: Node, n: Node)
    requires t == CandidateTree()
    ensures Qualifies(t, "i", ["200-2"], n) <==> n == t.children[0].children[0]
  {
    CandidateTreePreorder(t);
    var n2i := t.children[0].children[0];
    assert Parent(n2i.tokens) == ["200", "2"];
    assert LabelId(["200", "2"]) == "200-2";
    assert InFamily(n2i.tokens, ["200-2"][0]);
    assert !ImpossibleLabel(n2i, ["200-2"]);
  }

  lemma CandidateIds()
    ensures LabelId(["200", "2"]) == "200-2"
    ensures LabelId(["200", "2", "a", "1", "i"]) == "200-2-a-1-i"
  {
    assert Join(["1", "i"], '-') == "1-i";
    assert Join(["a", "1", "i"], '-') == "a-1-i";
    assert Join(["2", "a", "1", "i"], '-') == "2-a-1-i";
  }

  /** POST 200-?-2 then PUT 200-?-2-a-1-i, whose label is not in the tree:
      the PUT is filed under 200-2-a-1-i as a candidate carrying 200-2-i. */
  lemma MatchCandidate(a: Amendment, b: Amendment, t: Node)
    requires Directive(a, Post, ["200", "2"])
    requires Directive(b, Put, ["200", "2", "a", "1", "i"])
    requires t == CandidateTree()
    ensures var m := Matched([a, b], Some(t));
            |m| == 2 && m[1].key == "200-2-a-1-i" && |m[1].changes| == 1 &&
            m[1].changes[0].candidate && m[1].changes[0].node == Some(t.children[0].children[0])
  {
    assert AmendedId(a) == "200-2" && AmendedId(b) == "200-2-a-1-i" by {
      CandidateIds();
    }
    assert LastToken(AmendedLabel(b)) == Some("i");
    var n2i := t.children[0].children[0];
    assert Find(t, "200-2") == Some(t.children[0]) && Find(t, "200-2-a-1-i") == None by {
      CandidateTreePreorder(t);
    }
    assert Qualifies(t, "i", ["200-2"], n2i) by {
      CandidateQualifying(t, n2i);
    }
    MatchPairCandidate(a, b, t, t.children[0], "i", n2i);
    var m := Matched([a, b], Some(t));
    CandidateQualifying(t, m[1].changes[0].node.value);
  }
}

/** `NoticeChanges`: the changes of a notice grouped by the amendment
    paragraph they came from, each group a label id to changes map that
    grows across calls without repeating a change. */
module Aggregation {
  import opened Wrappers
  import opened Amendments
  import opened AmendMaps
  import opened Flatten

  /** `group.get(label, [])`. */
  function Changes(g: seq<Entry>, k: string): (r: seq<Change>)
    ensures HasKey(g, k) ==> Some(r) == Lookup(g, k)
    ensures !HasKey(g, k) ==> r == []
  {
    match Lookup(g, k)
    case None => []
    case Some(cs) => cs
  }

  /** No change occurs twice in a list. */
  predicate NoRepeats(cs: seq<Change>)
  {
    forall i, j :: 0 <= i < j < |cs| ==> cs[i] != cs[j]
  }

  /** Every list of the group is free of repeats. */
  ghost predicate GroupValid(g: seq<Entry>)
  {
    DistinctKeys(g) && forall k :: NoRepeats(Changes(g, k))
  }

  /** One `(label, change)` pair of `add_changes`: appended to the label's
      list (created if need be) unless an equal change is already there. */
  function AddChange(g: seq<Entry>, k: string, c: Change): (r: seq<Entry>)
    requires DistinctKeys(g)
    ensures DistinctKeys(r) && HasKey(r, k)
    ensures Changes(r, k) == if c in Changes(g, k) then Changes(g, k) else Changes(g, k) + [c]
  {
    if c in Changes(g, k) then
      assert HasKey(g, k);
      g
    else
      AppendChange(g, k, c)
  }

  /** The other labels' lists are untouched. */
  lemma AddChangeOthers(g: seq<Entry>, k: string, c: Change, k2: string)
    requires DistinctKeys(g) && k2 != k
    ensures HasKey(AddChange(g, k, c), k2) == HasKey(g, k2)
    ensures Changes(AddChange(g, k, c), k2) == Changes(g, k2)
  {
    var r := AddChange(g, k, c);
    if r != g {
      if HasKey(g, k2) {
        var i :| 0 <= i < |g| && g[i].key == k2;
        assert g[i] in r;
      }
      if HasKey(r, k2) {
        var i :| 0 <= i < |r| && r[i].key == k2;
        assert r[i] in g;
      }
    }
  }

  /** A label without changes gets a one-change list. */
  lemma AddChangeStart(g: seq<Entry>, k: string, c: Change)
    requires DistinctKeys(g) && Changes(g, k) == []
    ensures Changes(AddChange(g, k, c), k) == [c]
  {
  }

  /** `add_changes(provenance, changes)` on one group: the pairs in order. */
  function AddAll(g: seq<Entry>, pairs: seq<Keyed>): (r: seq<Entry>)
    requires DistinctKeys(g)
    ensures DistinctKeys(r)
  {
    if pairs == [] then g
    else
      var last := pairs[|pairs| - 1];
      AddChange(AddAll(g, pairs[..|pairs| - 1]), last.key, last.change)
  }

  /** Adding keeps every list free of repeats. */
  lemma {:induction false} AddAllValid(g: seq<Entry>, pairs: seq<Keyed>)
    requires GroupValid(g)
    ensures GroupValid(AddAll(g, pairs))
  {
    if pairs != [] {
      var init := pairs[..|pairs| - 1];
      var last := pairs[|pairs| - 1];
      AddAllValid(g, init);
      var h := AddAll(g, init);
      var r := AddChange(h, last.key, last.change);
      forall k ensures NoRepeats(Changes(r, k)) {
        assert NoRepeats(Changes(h, k));
        if k != last.key {
          AddChangeOthers(h, last.key, last.change, k);
        }
      }
    }
  }

  lemma InLast<T>(s: seq<T>, x: T)
    requires s != []
    ensures x in s <==> x in s[..|s| - 1] || x == s[|s| - 1]
  {
    assert s == s[..|s| - 1] + [s[|s| - 1]];
  }

  lemma TakeFirst<T>(a: T, b: T)
    ensures [a, b][..1] == [a] && |[a, b]| == 2 && [a, b][1] == b
  {
  }

  lemma TakeAll<T>(s: seq<T>)
    ensures s[..|s|] == s
  {
  }

  /** A change ends up under a label exactly when it was there before or
      one of the pairs files it there. */
  lemma {:induction false} AddAllMembership(g: seq<Entry>, pairs: seq<Keyed>, k: string, c: Change)
    requires DistinctKeys(g)
    ensures c in Changes(AddAll(g, pairs), k) <==> c in Changes(g, k) || Keyed(k, c) in pairs
  {
    if pairs != [] {
      var init := pairs[..|pairs| - 1];
      var last := pairs[|pairs| - 1];
      AddAllMembership(g, init, k, c);
      var h := AddAll(g, init);
      assert AddAll(g, pairs) == AddChange(h, last.key, last.change);
      InLast(pairs, Keyed(k, c));
      if k == last.key {
        assert c in Changes(AddChange(h, k, last.change), k) <==> c in Changes(h, k) || c == last.change;
      } else {
        AddChangeOthers(h, last.key, last.change, k);
      }
    }
  }

  /** First-arrival order is kept: a label's earlier list is a prefix of
      its later one. */
  lemma {:induction false} AddAllExtends(g: seq<Entry>, pairs: seq<Keyed>, k: string)
    requires DistinctKeys(g)
    ensures Changes(g, k) <= Changes(AddAll(g, pairs), k)
  {
    if pairs != [] {
      var last := pairs[|pairs| - 1];
      AddAllExtends(g, pairs[..|pairs| - 1], k);
      if k != last.key {
        AddChangeOthers(AddAll(g, pairs[..|pairs| - 1]), last.key, last.change, k);
      }
    }
  }

  /** Pairs that are all present already change nothing. */
  lemma {:induction false} AddAllPresent(g: seq<Entry>, pairs: seq<Keyed>)
    requires DistinctKeys(g)
    requires forall p :: p in pairs ==> p.change in Changes(g, p.key)
    ensures AddAll(g, pairs) == g
  {
    if pairs != [] {
      AddAllPresent(g, pairs[..|pairs| - 1]);
      assert pairs[|pairs| - 1] in pairs;
    }
  }

  /** Repeating a call is a no-op: the duplicate check suppresses every
      pair the first call filed. */
  lemma AddAllIdempotent(g: seq<Entry>, pairs: seq<Keyed>)
    requires DistinctKeys(g)
    ensures AddAll(AddAll(g, pairs), pairs) == AddAll(g, pairs)
  {
    var h := AddAll(g, pairs);
    forall p | p in pairs ensures p.change in Changes(h, p.key) {
      AddAllMembership(g, pairs, p.key, p.change);
    }
    AddAllPresent(h, pairs);
  }

  /** Taking one more pair of a call is one more `AddChange`. */
  lemma AddAllPrefix(g: seq<Entry>, pairs: seq<Keyed>, i: nat)
    requires DistinctKeys(g) && i < |pairs|
    ensures AddAll(g, pairs[..i + 1]) == AddChange(AddAll(g, pairs[..i]), pairs[i].key, pairs[i].change)
  {
    assert pairs[..i + 1][..i] == pairs[..i];
  }

  lemma AddAllOne(g: seq<Entry>, p: Keyed)
    requires DistinctKeys(g)
    ensures AddAll(g, [p]) == AddChange(g, p.key, p.change)
  {
    assert [p][..0] == [];
  }

  lemma AddAllTwo(g: seq<Entry>, p: Keyed, q: Keyed)
    requires DistinctKeys(g)
    ensures AddAll(g, [p, q]) == AddChange(AddChange(g, p.key, p.change), q.key, q.change)
  {
    TakeFirst(p, q);
    AddAllOne(g, p);
  }

  /** The group of a provenance, empty before its first use. */
  function Group(byXml: map<Option<string>, seq<Entry>>, provenance: Option<string>): seq<Entry>
  {
    if provenance in byXml then byXml[provenance] else []
  }

  ghost predicate AllValid(byXml: map<Option<string>, seq<Entry>>)
  {
    forall p :: p in byXml ==> GroupValid(byXml[p])
  }

  lemma AllValidUpdate(byXml: map<Option<string>, seq<Entry>>, p: Option<string>, g: seq<Entry>)
    requires AllValid(byXml) && GroupValid(g)
    ensures AllValid(byXml[p := g])
  {
  }

  lemma GroupOfValid(byXml: map<Option<string>, seq<Entry>>, p: Option<string>)
    requires AllValid(byXml)
    ensures GroupValid(Group(byXml, p))
  {
    if p !in byXml {
      forall k ensures NoRepeats(Changes([], k)) {
        assert !HasKey([], k);
      }
    }
  }

  /** The accumulator: `changes_by_xml`, provenance to group. */
  class NoticeChanges {
    var changesByXml: map<Option<string>, seq<Entry>>

    ghost predicate Valid()
      reads this
    {
      AllValid(changesByXml)
    }

    constructor ()
      ensures changesByXml == map[] && Valid()
    {
      changesByXml := map[];
    }

    /** `add_changes(amdpar_xml, changes)`: the provenance's group, created
        on first use, takes the pairs in order; the other groups are left
        alone. */
    method AddChanges(provenance: Option<string>, pairs: seq<Keyed>)
      requires Valid()
      modifies this
      ensures Valid()
      ensures changesByXml == old(changesByXml)[provenance := AddAll(Group(old(changesByXml), provenance), pairs)]
    {
      var g := Group(changesByXml, provenance);
      GroupOfValid(changesByXml, provenance);
      var group := g;
      for i := 0 to |pairs|
        invariant DistinctKeys(group) && group == AddAll(g, pairs[..i])
        invariant changesByXml == old(changesByXml)
      {
        AddAllPrefix(g, pairs, i);
        group := AddChange(group, pairs[i].key, pairs[i].change);
      }
      TakeAll(pairs);
      changesByXml := changesByXml[provenance := group];
      AddAllValid(g, pairs);
      AllValidUpdate(old(changesByXml), provenance, group);
    }
  }
}

/** The `update_duplicates` test: four calls on one provenance, for any
    three distinct changes in the roles of its DELETE, OTHER and LAST. */
module AggregationCases {
  import opened Wrappers
  import opened Amendments
  import opened AmendMaps
  import opened Flatten
  import opened Aggregation

  predicate Distinct3(del: Change, other: Change, last: Change)
  {
    del != other && other != last && del != last
  }

  /** The three labels of the test are distinct. */
  lemma Labels3()
    ensures "123-12" != "123-22" && "123-12" != "123-32" && "123-22" != "123-32"
  {
    assert "123-12"[4] != "123-22"[4] && "123-12"[4] != "123-32"[4] && "123-22"[4] != "123-32"[4];
  }

  /** Two new labels, one change each. */
  lemma {:induction false} TwoFresh(k1: string, k2: string, k3: string, del: Change, other: Change, g1: seq<Entry>)
    requires k1 != k2 && k1 != k3 && k2 != k3
    requires g1 == AddChange(AddChange([], k1, del), k2, other)
    ensures DistinctKeys(g1)
    ensures Changes(g1, k1) == [del]
    ensures Changes(g1, k2) == [other]
    ensures Changes(g1, k3) == []
  {
    var g0 := OneFresh(k1, del);
    assert Changes(g1, k1) == [del] by {
      AddChangeOthers(g0, k2, other, k1);
    }
    assert Changes(g1, k2) == [other] by {
      AddChangeStart(g0, k2, other);
    }
    assert Changes(g1, k3) == [] by {
      AddChangeOthers(g0, k2, other, k3);
    }
  }

  /** One new label with one change; every other label has none. */
  lemma OneFresh(k: string, c: Change) returns (g: seq<Entry>)
    ensures g == AddChange([], k, c) && DistinctKeys(g)
    ensures Changes(g, k) == [c]
    ensures forall k2 :: k2 != k ==> Changes(g, k2) == []
  {
    g := AddChange([], k, c);
    AddChangeStart([], k, c);
    forall k2 | k2 != k
      ensures Changes(g, k2) == []
    {
      AddChangeOthers([], k, c, k2);
    }
  }

  /** The first call files DELETE under the first label and OTHER under the
      second. */
  lemma {:induction false} FirstCall(k1: string, k2: string, k3: string, del: Change, other: Change, g1: seq<Entry>)
    requires k1 != k2 && k1 != k3 && k2 != k3
    requires g1 == AddAll([], [Keyed(k1, del), Keyed(k2, other)])
    ensures DistinctKeys(g1)
    ensures Changes(g1, k1) == [del]
    ensures Changes(g1, k2) == [other]
    ensures Changes(g1, k3) == []
  {
    AddAllTwo([], Keyed(k1, del), Keyed(k2, other));
    TwoFresh(k1, k2, k3, del, other, g1);
  }

  /** The repeated DELETE changes nothing. */
  lemma {:induction false} SecondCall(k1: string, del: Change, g1: seq<Entry>, g2: seq<Entry>)
    requires DistinctKeys(g1) && Changes(g1, k1) == [del]
    requires g2 == AddAll(g1, [Keyed(k1, del)])
    ensures g2 == g1
  {
    AddAllOne(g1, Keyed(k1, del));
  }

  /** OTHER under the first label is new there and goes after the DELETE. */
  lemma {:induction false} ThirdCall(k1: string, k2: string, k3: string, del: Change, other: Change, g2: seq<Entry>, g3: seq<Entry>)
    requires k1 != k2 && k1 != k3 && del != other
    requires DistinctKeys(g2) && Changes(g2, k1) == [del]
    requires g3 == AddAll(g2, [Keyed(k1, other)])
    ensures DistinctKeys(g3)
    ensures Changes(g3, k1) == [del, other]
    ensures Changes(g3, k2) == Changes(g2, k2)
    ensures Changes(g3, k3) == Changes(g2, k3)
  {
    AddAllOne(g2, Keyed(k1, other));
    AddChangeOthers(g2, k1, other, k2);
    AddChangeOthers(g2, k1, other, k3);
  }

  /** The repeated OTHER under the second label is suppressed; LAST starts
      the third. */
  lemma {:induction false} FourthCall(k1: string, k2: string, k3: string, other: Change, last: Change, g3: seq<Entry>, g4: seq<Entry>)
    requires k1 != k2 && k1 != k3 && k2 != k3
    requires DistinctKeys(g3) && Changes(g3, k2) == [other]
    requires Changes(g3, k3) == []
    requires g4 == AddAll(g3, [Keyed(k2, other), Keyed(k3, last)])
    ensures Changes(g4, k1) == Changes(g3, k1)
    ensures Changes(g4, k2) == [other]
    ensures Changes(g4, k3) == [last]
  {
    AddAllTwo(g3, Keyed(k2, other), Keyed(k3, last));
    assert AddChange(g3, k2, other) == g3;
    AddChangeOthers(g3, k3, last, k1);
    AddChangeOthers(g3, k3, last, k2);
  }

  /** `123-12` ends as [DELETE, OTHER], `123-22` as [OTHER] and `123-32` as
      [LAST]: the repeated DELETE and OTHER are suppressed, the new OTHER is
      appended after the DELETE. */
  method UpdateDuplicates(del: Change, other: Change, last: Change) returns (data: seq<Entry>)
    requires Distinct3(del, other, last)
    ensures Changes(data, "123-12") == [del, other]
    ensures Changes(data, "123-22") == [other]
    ensures Changes(data, "123-32") == [last]
  {
    var nc := new NoticeChanges();
    nc.AddChanges(None, [Keyed("123-12", del), Keyed("123-22", other)]);
    var g1 := nc.changesByXml[None];
    Labels3();
    FirstCall("123-12", "123-22", "123-32", del, other, g1);
    nc.AddChanges(None, [Keyed("123-12", del)]);
    var g2 := nc.changesByXml[None];
    SecondCall("123-12", del, g1, g2);
    nc.AddChanges(None, [Keyed("123-12", other)]);
    var g3 := nc.changesByXml[None];
    ThirdCall("123-12", "123-22", "123-32", del, other, g2, g3);
    nc.AddChanges(None, [Keyed("123-22", other), Keyed("123-32", last)]);
    data := nc.changesByXml[None];
    FourthCall("123-12", "123-22", "123-32", other, last, g3, data);
  }
}

/** The amend map: resolved label id to the ordered list of changes filed
    under it (a `defaultdict(list)` in insertion order), and the
    `resolve_candidates` post-pass over it. */
module AmendMaps {
  import opened Wrappers
  import opened Strings
  import opened Tree
  import opened Amendments

  datatype Entry = Entry(key: string, changes: seq<Change>)

  function Keys(m: seq<Entry>): (r: seq<string>)
    ensures |r| == |m| && forall i :: 0 <= i < |m| ==> r[i] == m[i].key
  {
    seq(|m|, i requires 0 <= i < |m| => m[i].key)
  }

  predicate HasKey(m: seq<Entry>, k: string)
  {
    exists i :: 0 <= i < |m| && m[i].key == k
  }

  /** The map's representation invariant: a key occurs at most once. */
  predicate DistinctKeys(m: seq<Entry>)
  {
    forall i, j :: 0 <= i < j < |m| ==> m[i].key != m[j].key
  }

  /** `amend_map.get(k)`. */
  function Lookup(m: seq<Entry>, k: string): (r: Option<seq<Change>>)
    ensures r.Some? <==> HasKey(m, k)
    ensures r.Some? ==> Entry(k, r.value) in m
    ensures DistinctKeys(m) ==> forall e :: e in m && e.key == k ==> r == Some(e.changes)
  {
    if m == [] then None
    else if m[0].key == k then Some(m[0].changes)
    else
      var r := Lookup(m[1..], k);
      assert forall e :: e in m && e != m[0] ==> e in m[1..];
      r
  }

  /** `del amend_map[k]`: every entry under another key is kept. */
  function RemoveKey(m: seq<Entry>, k: string): (r: seq<Entry>)
    ensures forall e :: e in r <==> e in m && e.key != k
    ensures DistinctKeys(m) ==> DistinctKeys(r)
  {
    if m == [] then []
    else if m[0].key == k then RemoveKey(m[1..], k)
    else
      var rest := RemoveKey(m[1..], k);
      assert forall e :: e in m <==> e == m[0] || e in m[1..];
      [m[0]] + rest
  }

  /** `del` keeps the order of the entries it leaves: two remaining
      entries appear in the same order as before. */
  lemma {:induction false} RemoveKeyOrder(m: seq<Entry>, k: string, i: int, j: int)
    requires 0 <= i < j < |m| && m[i].key != k && m[j].key != k
    ensures Before(RemoveKey(m, k), m[i], m[j])
  {
    if i == 0 {
      assert m[1..][j - 1] == m[j];
      var q := RemoveKeyIndex(m[1..], k, j - 1);
      RemoveKeyKeepsHead(m, k);
      BeforeHead(m[0], RemoveKey(m[1..], k), q);
    } else {
      assert m[1..][i - 1] == m[i] && m[1..][j - 1] == m[j];
      RemoveKeyOrder(m[1..], k, i - 1, j - 1);
      if m[0].key != k {
        BeforeCons(m[0], RemoveKey(m[1..], k), m[i], m[j]);
      }
    }
  }

  lemma RemoveKeyKeepsHead(m: seq<Entry>, k: string)
    requires |m| > 0 && m[0].key != k
    ensures RemoveKey(m, k) == [m[0]] + RemoveKey(m[1..], k)
  {
  }

  /** Where a kept entry lands after `del`. */
  lemma {:induction false} RemoveKeyIndex(m: seq<Entry>, k: string, j: int) returns (q: int)
    requires 0 <= j < |m| && m[j].key != k
    ensures 0 <= q < |RemoveKey(m, k)| && RemoveKey(m, k)[q] == m[j]
  {
    if j == 0 {
      RemoveKeyKeepsHead(m, k);
      q := 0;
    } else {
      assert m[1..][j - 1] == m[j];
      q := RemoveKeyIndex(m[1..], k, j - 1);
      if m[0].key != k {
        RemoveKeyKeepsHead(m, k);
        q := q + 1;
      }
    }
  }

  /** `x` occurs in `r` before `y`. */
  ghost predicate Before(r: seq<Entry>, x: Entry, y: Entry)
  {
    exists p, q :: 0 <= p < q < |r| && r[p] == x && r[q] == y
  }

  lemma BeforeHead(x: Entry, r: seq<Entry>, q: int)
    requires 0 <= q < |r|
    ensures Before([x] + r, x, r[q])
  {
    assert ([x] + r)[0] == x && ([x] + r)[q + 1] == r[q];
  }

  lemma BeforeCons(e: Entry, r: seq<Entry>, x: Entry, y: Entry)
    requires Before(r, x, y)
    ensures Before([e] + r, x, y)
  {
    var p, q :| 0 <= p < q < |r| && r[p] == x && r[q] == y;
    assert ([e] + r)[p + 1] == x && ([e] + r)[q + 1] == y;
  }

  /** `amend_map[k] = cs` for a key already present. */
  function SetList(m: seq<Entry>, k: string, cs: seq<Change>): (r: seq<Entry>)
    ensures Keys(r) == Keys(m)
    ensures forall i :: 0 <= i < |m| ==> r[i] == (if m[i].key == k then Entry(k, cs) else m[i])
  {
    seq(|m|, i requires 0 <= i < |m| => if m[i].key == k then Entry(k, cs) else m[i])
  }

  /** `amend_map[k].append(c)` on a default dictionary: a new key goes last. */
  function AppendChange(m: seq<Entry>, k: string, c: Change): (r: seq<Entry>)
    requires DistinctKeys(m)
    ensures DistinctKeys(r)
    ensures Lookup(r, k) == Some((if HasKey(m, k) then Lookup(m, k).value else []) + [c])
    ensures forall e :: e in m && e.key != k ==> e in r
    ensures forall e :: e in r && e.key != k ==> e in m
    ensures !HasKey(m, k) ==> r == m + [Entry(k, [c])]
    ensures HasKey(m, k) ==> Keys(r) == Keys(m)
  {
    match Lookup(m, k)
    case None =>
      var r := m + [Entry(k, [c])];
      assert forall e :: e in m ==> e.key != k;
      assert DistinctKeys(r);
      assert Entry(k, [c]) in r;
      assert Lookup(r, k) == Some([c]);
      assert !HasKey(m, k) && [] + [c] == [c];
      r
    case Some(cs) =>
      var r := SetList(m, k, cs + [c]);
      assert Keys(r) == Keys(m);
      assert forall i :: 0 <= i < |r| ==> r[i].key == Keys(m)[i];
      r
  }

  /** A candidate change under `key` whose node carries another label id
      that is already a key of the map: the location is accounted for
      elsewhere, so this entry was a wrong guess. */
  predicate Accounted(m: seq<Entry>, key: string, c: Change)
  {
    c.candidate && c.node.Some? && LabelId(c.node.value.tokens) != key &&
    HasKey(m, LabelId(c.node.value.tokens))
  }

  predicate AnyAccounted(m: seq<Entry>, key: string, cs: seq<Change>)
  {
    exists i :: 0 <= i < |cs| && Accounted(m, key, cs[i])
  }

  /** An entry whose candidates all carry the entry's own label id. */
  predicate SettledEntry(e: Entry)
  {
    forall c :: c in e.changes && c.candidate && c.node.Some? ==>
      LabelId(c.node.value.tokens) == e.key
  }

  predicate Settled(m: seq<Entry>)
  {
    forall e :: e in m ==> SettledEntry(e)
  }

  /** `node.label = key.split('-')` for a candidate filed under `key`: only
      the node's label changes, and afterwards its label id is `key`. */
  function Relabel(key: string, c: Change): (r: Change)
    ensures r.candidate && r.node.Some? ==> LabelId(r.node.value.tokens) == key
    ensures r.(node := c.node) == c && r.node.Some? == c.node.Some?
    ensures r.node.Some? ==> r.node.value.(tokens := c.node.value.tokens) == c.node.value
    ensures !c.candidate || c.node.None? || LabelId(c.node.value.tokens) == key ==> r == c
  {
    if c.candidate && c.node.Some? && LabelId(c.node.value.tokens) != key then
      JoinSplit(key, '-');
      c.(node := Some(c.node.value.(tokens := Split(key, '-'))))
    else c
  }

  function RelabelAll(key: string, cs: seq<Change>): (r: seq<Change>)
    ensures |r| == |cs| && forall i :: 0 <= i < |cs| ==> r[i] == Relabel(key, cs[i])
  {
    seq(|cs|, i requires 0 <= i < |cs| => Relabel(key, cs[i]))
  }

  /** One step of `resolve_candidates`: the entry under `key` is dropped if
      one of its candidates is accounted for, and otherwise keeps its
      changes with every candidate relabelled to `key`. */
  function ResolveKey(m: seq<Entry>, key: string): (r: seq<Entry>)
    requires DistinctKeys(m)
    ensures DistinctKeys(r)
    ensures forall e :: e in m && e.key != key ==> e in r
    ensures forall e :: e in r && e.key != key ==> e in m
    ensures forall e :: e in r && e.key == key ==> SettledEntry(e)
    ensures forall k :: HasKey(r, k) ==> HasKey(m, k)
  {
    match Lookup(m, key)
    case None => m
    case Some(cs) =>
      if AnyAccounted(m, key, cs) then RemoveKey(m, key)
      else
        var r := SetList(m, key, RelabelAll(key, cs));
        assert Keys(r) == Keys(m);
        assert forall i :: 0 <= i < |r| ==> r[i].key == Keys(m)[i];
        r
  }

  /** The keys of `ks` resolved in order. */
  function ResolveFrom(m: seq<Entry>, ks: seq<string>): (r: seq<Entry>)
    requires DistinctKeys(m)
    ensures DistinctKeys(r)
    ensures forall e :: e in m && e.key !in ks ==> e in r
    ensures forall e :: e in r ==> (e in m && e.key !in ks) || (e.key in ks && SettledEntry(e))
    ensures forall k :: HasKey(r, k) ==> HasKey(m, k)
  {
    if ks == [] then m
    else
      var prev := ResolveFrom(m, ks[..|ks| - 1]);
      assert forall k :: k in ks <==> k in ks[..|ks| - 1] || k == ks[|ks| - 1];
      ResolveKey(prev, ks[|ks| - 1])
  }

  /** `resolve_candidates(amend_map)`: every key of the map resolved, in the
      map's key order. */
  function Resolved(m: seq<Entry>): seq<Entry>
    requires DistinctKeys(m)
  {
    ResolveFrom(m, Keys(m))
  }

  lemma {:induction false} ResolveFromAppend(m: seq<Entry>, a: seq<string>, b: seq<string>)
    requires DistinctKeys(m)
    ensures ResolveFrom(m, a + b) == ResolveFrom(ResolveFrom(m, a), b)
    decreases |b|
  {
    if b == [] {
      assert a + b == a;
    } else {
      assert (a + b)[..|a + b| - 1] == a + b[..|b| - 1];
      ResolveFromAppend(m, a, b[..|b| - 1]);
    }
  }

  /** After the pass every candidate left carries the label id it is filed
      under. */
  lemma ResolvedSettled(m: seq<Entry>)
    requires DistinctKeys(m)
    ensures Settled(Resolved(m))
  {
    forall e | e in Resolved(m) ensures SettledEntry(e) {
      if e in m {
        var i :| 0 <= i < |m| && m[i] == e;
        assert Keys(m)[i] == e.key;
      }
    }
  }

  /** Resolving a settled map changes nothing. */
  lemma SettledResolveKey(m: seq<Entry>, key: string)
    requires DistinctKeys(m) && Settled(m)
    ensures ResolveKey(m, key) == m
  {
    match Lookup(m, key)
    case None =>
    case Some(cs) =>
      assert Entry(key, cs) in m;
      assert !AnyAccounted(m, key, cs);
      assert RelabelAll(key, cs) == cs;
      var r := SetList(m, key, cs);
      forall i | 0 <= i < |m| ensures r[i] == m[i] {
        if m[i].key == key {
          assert m[i].changes == cs;
        }
      }
  }

  lemma {:induction false} SettledResolveFrom(m: seq<Entry>, ks: seq<string>)
    requires DistinctKeys(m) && Settled(m)
    ensures ResolveFrom(m, ks) == m
  {
    if ks != [] {
      SettledResolveFrom(m, ks[..|ks| - 1]);
      SettledResolveKey(m, ks[|ks| - 1]);
    }
  }

  /** `resolve_candidates` is idempotent: a second pass is a no-op. */
  lemma ResolveIdempotent(m: seq<Entry>)
    requires DistinctKeys(m)
    ensures Resolved(Resolved(m)) == Resolved(m)
  {
    ResolvedSettled(m);
    SettledResolveFrom(Resolved(m), Keys(Resolved(m)));
  }

  /** A definitive entry (no candidates) is never dropped or altered by a
      step. */
  lemma DefinitiveResolveKey(m: seq<Entry>, key: string, e: Entry)
    requires DistinctKeys(m) && e in m
    requires forall c :: c in e.changes ==> !c.candidate
    ensures e in ResolveKey(m, key)
  {
    if e.key == key {
      assert Lookup(m, key) == Some(e.changes);
      assert !AnyAccounted(m, key, e.changes);
      assert RelabelAll(key, e.changes) == e.changes;
      var i :| 0 <= i < |m| && m[i] == e;
      assert SetList(m, key, e.changes)[i] == e;
    }
  }

  lemma {:induction false} DefinitiveResolveFrom(m: seq<Entry>, ks: seq<string>, e: Entry)
    requires DistinctKeys(m) && e in m
    requires forall c :: c in e.changes ==> !c.candidate
    ensures e in ResolveFrom(m, ks)
  {
    if ks != [] {
      DefinitiveResolveFrom(m, ks[..|ks| - 1], e);
      DefinitiveResolveKey(ResolveFrom(m, ks[..|ks| - 1]), ks[|ks| - 1], e);
    }
  }

  /** An entry with no candidate changes survives the pass unchanged. */
  lemma DefinitiveKept(m: seq<Entry>, e: Entry)
    requires DistinctKeys(m) && e in m
    requires forall c :: c in e.changes ==> !c.candidate
    ensures e in Resolved(m)
  {
    DefinitiveResolveFrom(m, Keys(m), e);
  }

  /** The index of a key in the key order of a map with distinct keys. */
  lemma KeyPosition(m: seq<Entry>, e: Entry) returns (i: nat)
    requires DistinctKeys(m) && e in m
    ensures i < |m| && m[i] == e
    ensures e.key !in Keys(m)[..i] && e.key !in Keys(m)[i + 1..]
  {
    i :| 0 <= i < |m| && m[i] == e;
  }

  /** A candidate whose node's own label id is filed, definitively, under
      another key is a wrong guess: its whole entry is removed. */
  lemma AccountedRemoved(m: seq<Entry>, e: Entry, c: Change, f: Entry)
    requires DistinctKeys(m) && e in m && f in m
    requires c in e.changes && c.candidate && c.node.Some?
    requires f.key == LabelId(c.node.value.tokens) && f.key != e.key
    requires forall d :: d in f.changes ==> !d.candidate
    ensures !HasKey(Resolved(m), e.key)
  {
    var ks := Keys(m);
    var i := KeyPosition(m, e);
    var before := ResolveFrom(m, ks[..i]);
    assert e in before;
    DefinitiveResolveFrom(m, ks[..i], f);
    ResolveFromNext(m, ks, i, before);
    AccountedStep(before, e, c, f);
    var after := ResolveFrom(m, ks[..i + 1]);
    assert after == RemoveKey(before, e.key) by {
      assert ks[i] == e.key;
    }
    RemoveKeyGone(before, e.key);
    assert ks[..i + 1] + ks[i + 1..] == ks;
    ResolveFromAppend(m, ks[..i + 1], ks[i + 1..]);
  }

  lemma RemoveKeyGone(m: seq<Entry>, k: string)
    ensures !HasKey(RemoveKey(m, k), k)
  {
    var r := RemoveKey(m, k);
    forall j | 0 <= j < |r|
      ensures r[j].key != k
    {
      assert r[j] in r;
    }
  }

  /** The step for a key with an accounted-for candidate drops the key. */
  lemma AccountedStep(m: seq<Entry>, e: Entry, c: Change, f: Entry)
    requires DistinctKeys(m) && e in m && f in m
    requires c in e.changes && c.candidate && c.node.Some?
    requires f.key == LabelId(c.node.value.tokens) && f.key != e.key
    ensures ResolveKey(m, e.key) == RemoveKey(m, e.key)
  {
    assert HasKey(m, f.key) by {
      var j :| 0 <= j < |m| && m[j] == f;
    }
    assert Lookup(m, e.key) == Some(e.changes);
    var k :| 0 <= k < |e.changes| && e.changes[k] == c;
    assert Accounted(m, e.key, e.changes[k]);
  }

  /** An entry none of whose candidates is accounted for stays, with its
      candidates relabelled to its key. */
  lemma UnaccountedKept(m: seq<Entry>, e: Entry)
    requires DistinctKeys(m) && e in m
    requires forall c :: c in e.changes ==> !Accounted(m, e.key, c)
    ensures Entry(e.key, RelabelAll(e.key, e.changes)) in Resolved(m)
  {
    var ks := Keys(m);
    var i := KeyPosition(m, e);
    assert ks == ks[..i] + [e.key] + ks[i + 1..];
    var before := ResolveFrom(m, ks[..i]);
    assert e in before;
    assert Lookup(before, e.key) == Some(e.changes);
    assert !AnyAccounted(before, e.key, e.changes) by {
      forall j | 0 <= j < |e.changes| ensures !Accounted(before, e.key, e.changes[j]) {
        assert e.changes[j] in e.changes;
      }
    }
    var settled := Entry(e.key, RelabelAll(e.key, e.changes));
    var after := ResolveFrom(m, ks[..i] + [e.key]);
    assert (ks[..i] + [e.key])[..i] == ks[..i];
    assert after == SetList(before, e.key, RelabelAll(e.key, e.changes));
    var j :| 0 <= j < |before| && before[j] == e;
    assert after[j] == settled;
    ResolveFromAppend(m, ks[..i] + [e.key], ks[i + 1..]);
    assert settled in ResolveFrom(after, ks[i + 1..]);
  }

  /** The number of keys of a map with distinct keys. */
  function KeySet(m: seq<Entry>): set<string>
  {
    set i | 0 <= i < |m| :: m[i].key
  }

  lemma {:induction false} KeySetSize(m: seq<Entry>)
    requires DistinctKeys(m)
    ensures |KeySet(m)| == |m|
  {
    if m != [] {
      KeySetSize(m[1..]);
      assert KeySet(m) == {m[0].key} + KeySet(m[1..]) by {
        forall k | k in KeySet(m) ensures k in {m[0].key} + KeySet(m[1..]) {
          var i :| 0 <= i < |m| && m[i].key == k;
          if i > 0 {
            assert m[1..][i - 1].key == k;
          }
        }
      }
      assert m[0].key !in KeySet(m[1..]);
    }
  }

  /** The amend map as an object: `match_labels_and_changes` appends to it,
      `resolve_candidates` rewrites it in place. */
  class AmendMap {
    var entries: seq<Entry>

    predicate Valid()
      reads this
    {
      DistinctKeys(entries)
    }

    constructor ()
      ensures Valid() && entries == []
    {
      entries := [];
    }

    /** `amend_map[key].append(change)`. */
    method Append(key: string, change: Change)
      requires Valid()
      modifies this
      ensures Valid()
      ensures entries == AppendChange(old(entries), key, change)
    {
      entries := AppendChange(entries, key, change);
    }

    /** `resolve_candidates(amend_map, warn=False)`: visits the keys as they
        stood before the pass, dropping an entry whose candidate is accounted
        for and relabelling the candidates of any other. */
    method ResolveCandidates()
      requires Valid()
      modifies this
      ensures Valid()
      ensures entries == Resolved(old(entries))
    {
      var m := entries;
      ghost var m0 := m;
      var keys := Keys(m);
      var i := 0;
      while i < |keys|
        invariant 0 <= i <= |keys|
        invariant m == ResolveFrom(m0, keys[..i])
      {
        ResolveFromNext(m0, keys, i, m);
        m := ResolveStep(m, keys[i]);
        i := i + 1;
      }
      assert keys[..i] == keys;
      entries := m;
    }
  }

  /** Resolving the key after the first `i` extends the pass by one key. */
  lemma ResolveFromNext(m: seq<Entry>, keys: seq<string>, i: int, cur: seq<Entry>)
    requires DistinctKeys(m) && 0 <= i < |keys|
    requires cur == ResolveFrom(m, keys[..i])
    ensures DistinctKeys(cur)
    ensures ResolveKey(cur, keys[i]) == ResolveFrom(m, keys[..i + 1])
  {
    assert keys[..i + 1][..i] == keys[..i];
  }

  /** The body of the `resolve_candidates` loop for one key: the key's
      changes are scanned, then the entry is dropped or relabelled. */
  method ResolveStep(m: seq<Entry>, key: string) returns (r: seq<Entry>)
    requires DistinctKeys(m)
    ensures r == ResolveKey(m, key)
  {
    var found := Lookup(m, key);
    if found.None? {
      return m;
    }
    var accounted, relabelled := ScanChanges(m, key, found.value);
    if accounted {
      r := RemoveKey(m, key);
    } else {
      r := SetList(m, key, relabelled);
    }
  }

  /** The inner loop of `resolve_candidates` over one key's changes: whether
      a candidate is accounted for, and the changes with candidates
      relabelled to the key. */
  method ScanChanges(m: seq<Entry>, key: string, changes: seq<Change>)
    returns (accounted: bool, relabelled: seq<Change>)
    ensures accounted <==> AnyAccounted(m, key, changes)
    ensures relabelled == RelabelAll(key, changes)
  {
    accounted := false;
    relabelled := [];
    var j := 0;
    while j < |changes|
      invariant 0 <= j <= |changes|
      invariant accounted <==> AnyAccounted(m, key, changes[..j])
      invariant relabelled == RelabelAll(key, changes[..j])
    {
      var c := changes[j];
      if c.candidate && c.node.Some? {
        var id := LabelId(c.node.value.tokens);
        if id != key && HasKey(m, id) {
          accounted := true;
        }
      }
      relabelled := relabelled + [Relabel(key, c)];
      assert changes[..j + 1][..j] == changes[..j];
      j := j + 1;
    }
    assert changes[..j] == changes;
  }
}

/** The three `resolve_candidates` tests. */
module AmendMapCases {
  import opened Wrappers
  import opened Tree
  import opened Amendments
  import opened AmendMaps

  function Filed(n: Node, candidate: bool): Change
  {
    Change(Put, Some(n), None, None, None, candidate)
  }

  function Plain(tokens: seq<string>, text: string): Node
  {
    Node(tokens, text, None, RegText, [])
  }

  /** A definitive 200-1 under 200-1-a and a candidate labelled 200-2-i filed
      under 200-2-a-i. */
  function RelabelMap(): seq<Entry>
  {
    [Entry("200-1-a", [Filed(Plain(["200", "1"], "n1"), false)]),
     Entry("200-2-a-i", [Filed(Plain(["200", "2", "i"], "n2"), true)])]
  }

  /** The candidate's label id differs from its key before the pass and
      equals it afterwards. */
  lemma ResolveRelabels(m: seq<Entry>)
    requires m == RelabelMap()
    ensures DistinctKeys(m)
    ensures LabelId(m[1].changes[0].node.value.tokens) != "200-2-a-i"
    ensures var cs := RelabelAll("200-2-a-i", m[1].changes);
            Entry("200-2-a-i", cs) in Resolved(m) &&
            LabelId(cs[0].node.value.tokens) == "200-2-a-i"
  {
    assert LabelId(["200", "2", "i"]) == "200-2-i";
    assert !HasKey(m, "200-2-i");
    forall c | c in m[1].changes ensures !Accounted(m, m[1].key, c) {
      assert c == m[1].changes[0];
    }
    UnaccountedKept(m, m[1]);
  }

  /** The same, plus a definitive entry for 200-2-i itself. */
  function AccountedMap(): seq<Entry>
  {
    [Entry("200-1-a", [Filed(Plain(["200", "1"], "n1"), false)]),
     Entry("200-2-a-i", [Filed(Plain(["200", "2", "i"], "n2"), true)]),
     Entry("200-2-i", [Filed(Plain(["200", "2", "i"], "n2"), false)])]
  }

  /** The candidate is accounted for: its key goes, the definitive entries
      stay. */
  lemma ResolveAccountedFor(m: seq<Entry>)
    requires m == AccountedMap()
    ensures DistinctKeys(m)
    ensures m[0] in Resolved(m) && m[2] in Resolved(m) && !HasKey(Resolved(m), m[1].key)
  {
    assert LabelId(["200", "2", "i"]) == "200-2-i";
    assert m[1].changes[0] in m[1].changes;
    AccountedRemoved(m, m[1], m[1].changes[0], m[2]);
    DefinitiveKept(m, m[0]);
    DefinitiveKept(m, m[2]);
  }

  /** Of the three keys two remain. */
  lemma ResolveAccountedForCount(m: seq<Entry>)
    requires m == AccountedMap()
    ensures |m| == 3 && |Resolved(m)| == 2
  {
    ResolveAccountedFor(m);
    var r := Resolved(m);
    forall j | 0 <= j < |m| && j != 1 ensures m[j] in r {
      if j == 0 { assert m[0] in r; } else { assert m[2] in r; }
    }
    DropsOne(m, r, 1);
  }

  /** Two candidates, both labelled 200-1-i, filed under 200-1-a-i, with an
      empty list under 200-1-i. */
  function DoubleMap(): seq<Entry>
  {
    [Entry("200-1-a-i", [Filed(Plain(["200", "1", "i"], "n1"), true),
                         Filed(Plain(["200", "1", "i"], "n2"), true)]),
     Entry("200-1-i", [])]
  }

  /** The pass does not fail and exactly one key remains. */
  lemma ResolveDoubleDelete(m: seq<Entry>)
    requires m == DoubleMap()
    ensures DistinctKeys(m)
    ensures m[1] in Resolved(m) && !HasKey(Resolved(m), "200-1-a-i")
    ensures |Resolved(m)| == 1
  {
    assert LabelId(["200", "1", "i"]) == "200-1-i";
    assert m[0].changes[0] in m[0].changes;
    AccountedRemoved(m, m[0], m[0].changes[0], m[1]);
    DefinitiveKept(m, m[1]);
    DropsOne(m, Resolved(m), 0);
  }

  /** A map with distinct keys, all among those of `m`, that lacks the key
      of entry `i` and holds every other entry of `m`, has one entry fewer
      than `m`. */
  lemma DropsOne(m: seq<Entry>, r: seq<Entry>, i: nat)
    requires DistinctKeys(m) && DistinctKeys(r) && i < |m|
    requires forall k :: HasKey(r, k) ==> HasKey(m, k)
    requires !HasKey(r, m[i].key)
    requires forall j :: 0 <= j < |m| && j != i ==> m[j] in r
    ensures |r| == |m| - 1
  {
    forall k | k in KeySet(r) ensures k in KeySet(m) - {m[i].key} {
      var a :| 0 <= a < |r| && r[a].key == k;
      assert HasKey(r, k);
      var b :| 0 <= b < |m| && m[b].key == k;
    }
    forall k | k in KeySet(m) - {m[i].key} ensures k in KeySet(r) {
      var b :| 0 <= b < |m| && m[b].key == k;
      assert b != i;
      assert m[b] in r;
      var a :| 0 <= a < |r| && r[a] == m[b];
    }
    assert KeySet(r) == KeySet(m) - {m[i].key};
    assert m[i].key in KeySet(m);
    KeySetSize(r);
    KeySetSize(m);
  }
}

/** The `versions` command: which versions of a regulation exist, which of
    them had their effective date delayed and by whom, what each version
    depends on, and the writing of the stale ones. The Federal Register
    lookup and the index directory are inputs; the dependency graph's
    validity and staleness answers are given as sets. */
module Versions {
  import opened Wrappers
  import opened Strings
  import opened Seqs

  /** A calendar date as a day number: only order and presence matter. */
  type Date = int

  // ---------------------------------------------------------------------
  // fetch_version_ids

  /** `re.match(re.escape(fr_id) + r"_\d{8}", vid)`: the id starts with the
      document number, an underscore and eight digits; the match is
      anchored at the start only, so anything may follow. */
  predicate IsSplitOf(frId: string, vid: string)
  {
    |vid| >= |frId| + 9 && vid[..|frId|] == frId && vid[|frId|] == '_' &&
    forall k :: |frId| + 1 <= k < |frId| + 9 ==> IsDigit(vid[k])
  }

  /** The present ids split from one document number, in their own order. */
  function SplitEntries(frId: string, presentIds: seq<string>): (r: seq<string>)
    ensures forall v :: v in r <==> v in presentIds && IsSplitOf(frId, v)
  {
    Filter(presentIds, v => IsSplitOf(frId, v))
  }

  /** `split_entries or [fr_id]`: the split ids, or the bare document number
      when there are none. */
  function IdsFor(frId: string, presentIds: seq<string>): (r: seq<string>)
    ensures |r| >= 1
    ensures forall v :: v in r <==>
              (v in presentIds && IsSplitOf(frId, v)) ||
              (v == frId && forall w :: w in presentIds ==> !IsSplitOf(frId, w))
  {
    var split := SplitEntries(frId, presentIds);
    if split == [] then [frId]
    else
      assert split[0] in split;
      split
  }

  /** The ids contributed by the document numbers, in fetch order. */
  function VersionIds(docs: seq<string>, presentIds: seq<string>): seq<string>
  {
    if docs == [] then []
    else VersionIds(docs[..|docs| - 1], presentIds) + IdsFor(docs[|docs| - 1], presentIds)
  }

  /** `fetch_version_ids`, with the final rules' document numbers and the
      ids present in the notice directory as inputs. */
  method FetchVersionIds(documentNumbers: seq<string>, presentIds: seq<string>)
    returns (versionIds: seq<string>)
    ensures versionIds == VersionIds(documentNumbers, presentIds)
  {
    versionIds := [];
    for i := 0 to |documentNumbers|
      invariant versionIds == VersionIds(documentNumbers[..i], presentIds)
    {
      assert documentNumbers[..i + 1][..i] == documentNumbers[..i];
      versionIds := versionIds + IdsFor(documentNumbers[i], presentIds);
    }
    assert documentNumbers[..|documentNumbers|] == documentNumbers;
  }

  /** Every document number contributes at least one id. */
  lemma {:induction false} VersionIdsLength(docs: seq<string>, presentIds: seq<string>)
    ensures |VersionIds(docs, presentIds)| >= |docs|
  {
    if docs != [] {
      VersionIdsLength(docs[..|docs| - 1], presentIds);
    }
  }

  /** An id is listed exactly when some document number contributes it:
      as a present id split from it, or as the bare number when nothing
      present is split from it. */
  lemma {:induction false} VersionIdsMembership(docs: seq<string>, presentIds: seq<string>, v: string)
    ensures v in VersionIds(docs, presentIds) <==>
            exists i :: 0 <= i < |docs| && v in IdsFor(docs[i], presentIds)
  {
    if docs != [] {
      var init := docs[..|docs| - 1];
      VersionIdsMembership(init, presentIds, v);
      if v in IdsFor(docs[|docs| - 1], presentIds) {
        assert 0 <= |docs| - 1 < |docs|;
      }
      if exists i :: 0 <= i < |docs| && v in IdsFor(docs[i], presentIds) {
        var i :| 0 <= i < |docs| && v in IdsFor(docs[i], presentIds);
        if i < |docs| - 1 {
          assert init[i] == docs[i];
        }
      }
    }
  }

  // ---------------------------------------------------------------------
  // delays

  /** One delay a notice announces: the new date, and the versions it
      applies to (`modifies_notice_xml` holds exactly for the notices whose
      version id is in `appliesTo`). */
  datatype DelaySpec = DelaySpec(delayedUntil: Option<Date>, appliesTo: set<string>)

  /** A notice as read from the index. */
  datatype NoticeXml = NoticeXml(versionId: string, published: Date, effective: Option<Date>,
                                 delays: seq<DelaySpec>)

  /** `Delay(byId, until)`. */
  datatype Delay = Delay(delayedBy: string, until: Option<Date>)

  function Published(x: NoticeXml): int
  {
    x.published
  }

  /** The innermost loop: every notice the delay modifies gets the entry. */
  function ApplySpec(m: map<string, Delay>, byId: string, s: DelaySpec, xs: seq<NoticeXml>): map<string, Delay>
  {
    if xs == [] then m
    else
      var m' := ApplySpec(m, byId, s, xs[..|xs| - 1]);
      var x := xs[|xs| - 1];
      if x.versionId in s.appliesTo then m'[x.versionId := Delay(byId, s.delayedUntil)] else m'
  }

  /** The middle loop: each delay of one delayer in turn. */
  function ApplyDelayer(m: map<string, Delay>, byId: string, specs: seq<DelaySpec>, xs: seq<NoticeXml>): map<string, Delay>
  {
    if specs == [] then m
    else ApplySpec(ApplyDelayer(m, byId, specs[..|specs| - 1], xs), byId, specs[|specs| - 1], xs)
  }

  /** The outer loop over the delayers in the order given. */
  function DelaysFrom(ds: seq<NoticeXml>, xs: seq<NoticeXml>): map<string, Delay>
  {
    if ds == [] then map[]
    else
      var d := ds[|ds| - 1];
      ApplyDelayer(DelaysFrom(ds[..|ds| - 1], xs), d.versionId, d.delays, xs)
  }

  /** `delays(xmls)`: the delayers visited by ascending publication date. */
  function Delays(xs: seq<NoticeXml>): map<string, Delay>
  {
    DelaysFrom(SortBy(xs, Published), xs)
  }

  /** `delays(xmls)` as the nested loops it is. */
  method ComputeDelays(xmls: seq<NoticeXml>) returns (delays: map<string, Delay>)
    ensures delays == Delays(xmls)
  {
    var sorted := SortBy(xmls, Published);
    delays := map[];
    for i := 0 to |sorted|
      invariant delays == DelaysFrom(sorted[..i], xmls)
    {
      var delayer := sorted[i];
      ghost var before := delays;
      for j := 0 to |delayer.delays|
        invariant delays == ApplyDelayer(before, delayer.versionId, delayer.delays[..j], xmls)
      {
        var delay := delayer.delays[j];
        ghost var start := delays;
        for k := 0 to |xmls|
          invariant delays == ApplySpec(start, delayer.versionId, delay, xmls[..k])
        {
          assert xmls[..k + 1][..k] == xmls[..k];
          if xmls[k].versionId in delay.appliesTo {
            delays := delays[xmls[k].versionId := Delay(delayer.versionId, delay.delayedUntil)];
          }
        }
        assert xmls[..|xmls|] == xmls;
        assert delayer.delays[..j + 1][..j] == delayer.delays[..j];
      }
      assert delayer.delays[..|delayer.delays|] == delayer.delays;
      assert sorted[..i + 1][..i] == sorted[..i];
    }
    assert sorted[..|sorted|] == sorted;
  }

  /** Some notice in `xs` has version id `k`. */
  predicate Present(xs: seq<NoticeXml>, k: string)
  {
    exists x :: x in xs && x.versionId == k
  }

  /** The date of the last of `specs` that applies to `k`, if any does. */
  function LastFor(specs: seq<DelaySpec>, k: string): (r: Option<Option<Date>>)
    ensures r.Some? <==> exists j :: 0 <= j < |specs| && k in specs[j].appliesTo
  {
    if specs == [] then None
    else
      var last := specs[|specs| - 1];
      if k in last.appliesTo then Some(last.delayedUntil)
      else
        var r := LastFor(specs[..|specs| - 1], k);
        assert forall j :: 0 <= j < |specs| - 1 ==> specs[..|specs| - 1][j] == specs[j];
        r
  }

  /** The index of the last delayer in `ds` with a delay applying to `k`. */
  function LastDelayer(ds: seq<NoticeXml>, k: string): (r: Option<nat>)
    ensures r.Some? ==> r.value < |ds| && LastFor(ds[r.value].delays, k).Some?
    ensures r.Some? ==> forall j :: r.value < j < |ds| ==> LastFor(ds[j].delays, k).None?
    ensures r.None? ==> forall j :: 0 <= j < |ds| ==> LastFor(ds[j].delays, k).None?
  {
    if ds == [] then None
    else if LastFor(ds[|ds| - 1].delays, k).Some? then Some(|ds| - 1)
    else
      var r := LastDelayer(ds[..|ds| - 1], k);
      assert forall j :: 0 <= j < |ds| - 1 ==> ds[..|ds| - 1][j] == ds[j];
      r
  }

  /** The innermost loop at one key: set if a notice with that id is
      modified, untouched otherwise. */
  lemma {:induction false} ApplySpecAt(m: map<string, Delay>, byId: string, s: DelaySpec, xs: seq<NoticeXml>, k: string)
    ensures k in s.appliesTo && Present(xs, k) ==>
              k in ApplySpec(m, byId, s, xs) && ApplySpec(m, byId, s, xs)[k] == Delay(byId, s.delayedUntil)
    ensures !(k in s.appliesTo && Present(xs, k)) ==>
              (k in ApplySpec(m, byId, s, xs) <==> k in m) &&
              (k in m ==> ApplySpec(m, byId, s, xs)[k] == m[k])
  {
    if xs != [] {
      var init := xs[..|xs| - 1];
      ApplySpecAt(m, byId, s, init, k);
      assert Present(xs, k) <==> Present(init, k) || xs[|xs| - 1].versionId == k by {
        assert xs == init + [xs[|xs| - 1]];
      }
    }
  }

  /** The middle loop at one key: the last applicable delay's date wins. */
  lemma {:induction false} ApplyDelayerAt(m: map<string, Delay>, byId: string, specs: seq<DelaySpec>,
                                          xs: seq<NoticeXml>, k: string)
    ensures LastFor(specs, k).Some? && Present(xs, k) ==>
              k in ApplyDelayer(m, byId, specs, xs) &&
              ApplyDelayer(m, byId, specs, xs)[k] == Delay(byId, LastFor(specs, k).value)
    ensures !(LastFor(specs, k).Some? && Present(xs, k)) ==>
              (k in ApplyDelayer(m, byId, specs, xs) <==> k in m) &&
              (k in m ==> ApplyDelayer(m, byId, specs, xs)[k] == m[k])
  {
    if specs != [] {
      var init := specs[..|specs| - 1];
      ApplyDelayerAt(m, byId, init, xs, k);
      ApplySpecAt(ApplyDelayer(m, byId, init, xs), byId, specs[|specs| - 1], xs, k);
    }
  }

  /** The outer loop at one key: an id is delayed exactly when a notice
      with that id exists and some delayer applies to it, and then the
      entry names the last such delayer and its last applicable date. */
  lemma {:induction false} DelaysFromAt(ds: seq<NoticeXml>, xs: seq<NoticeXml>, k: string)
    ensures k in DelaysFrom(ds, xs) <==> Present(xs, k) && LastDelayer(ds, k).Some?
    ensures k in DelaysFrom(ds, xs) ==>
              var i := LastDelayer(ds, k).value;
              DelaysFrom(ds, xs)[k] == Delay(ds[i].versionId, LastFor(ds[i].delays, k).value)
  {
    if ds != [] {
      var init := ds[..|ds| - 1];
      var d := ds[|ds| - 1];
      DelaysFromAt(init, xs, k);
      ApplyDelayerAt(DelaysFrom(init, xs), d.versionId, d.delays, xs, k);
    }
  }

  /** The latest-published delayer wins: the delay recorded for a version
      comes from a delayer that applies to it, and no delayer applying to
      it was published later. */
  lemma LatestDelayerWins(xs: seq<NoticeXml>, k: string)
    requires k in Delays(xs)
    ensures exists d :: d in xs && d.versionId == Delays(xs)[k].delayedBy && LastFor(d.delays, k).Some? &&
              Delays(xs)[k].until == LastFor(d.delays, k).value &&
              forall e :: e in xs && LastFor(e.delays, k).Some? ==> e.published <= d.published
  {
    var sorted := SortBy(xs, Published);
    DelaysFromAt(sorted, xs, k);
    SortBySorted(xs, Published);
    var i := LastDelayer(sorted, k).value;
    var d := sorted[i];
    assert d in multiset(sorted);
    forall e | e in xs && LastFor(e.delays, k).Some? ensures e.published <= d.published {
      assert e in multiset(sorted);
      var j :| 0 <= j < |sorted| && sorted[j] == e;
      assert j <= i;
      if j < i {
        assert Published(sorted[j]) <= Published(sorted[i]);
      }
    }
  }

  /** A version is delayed exactly when a notice with its id is present and
      some notice announces a delay applying to it. */
  lemma DelaysKeys(xs: seq<NoticeXml>, k: string)
    ensures k in Delays(xs) <==> Present(xs, k) && exists d :: d in xs && LastFor(d.delays, k).Some?
  {
    var sorted := SortBy(xs, Published);
    DelaysFromAt(sorted, xs, k);
    SortBySorted(xs, Published);
    if exists d :: d in xs && LastFor(d.delays, k).Some? {
      var d :| d in xs && LastFor(d.delays, k).Some?;
      assert d in multiset(sorted);
      var j :| 0 <= j < |sorted| && sorted[j] == d;
    }
    if LastDelayer(sorted, k).Some? {
      var i := LastDelayer(sorted, k).value;
      assert sorted[i] in multiset(xs);
    }
  }

  // ---------------------------------------------------------------------
  // generate_dependencies

  /** Entries of the index: `version_dir / id` and `notice_dir / id`. */
  datatype EntryPath = VersionEntry(versionId: string) | NoticeEntry(noticeId: string)

  /** `deps.add(dependent, dependency)`. */
  datatype Edge = Edge(dependent: EntryPath, dependency: EntryPath)

  /** Each version depends on its own notice, and a delayed version also on
      the notice that delayed it. */
  function Dependencies(versionIds: seq<string>, delays: map<string, Delay>): (r: set<Edge>)
    ensures forall e :: e in r ==> e.dependent.VersionEntry? && e.dependency.NoticeEntry?
  {
    (set v | v in versionIds :: Edge(VersionEntry(v), NoticeEntry(v))) +
    (set k | k in delays :: Edge(VersionEntry(k), NoticeEntry(delays[k].delayedBy)))
  }

  /** `generate_dependencies(version_dir, version_ids, delays)`. */
  method GenerateDependencies(versionIds: seq<string>, delays: map<string, Delay>) returns (deps: set<Edge>)
    ensures deps == Dependencies(versionIds, delays)
  {
    deps := {};
    for i := 0 to |versionIds|
      invariant deps == set v | v in versionIds[..i] :: Edge(VersionEntry(v), NoticeEntry(v))
    {
      assert versionIds[..i + 1] == versionIds[..i] + [versionIds[i]];
      deps := deps + {Edge(VersionEntry(versionIds[i]), NoticeEntry(versionIds[i]))};
    }
    assert versionIds[..|versionIds|] == versionIds;
    ghost var own := deps;
    var pending := delays.Keys;
    while pending != {}
      invariant pending <= delays.Keys
      invariant deps == own + set k | k in delays.Keys - pending :: Edge(VersionEntry(k), NoticeEntry(delays[k].delayedBy))
      decreases pending
    {
      var delayed :| delayed in pending;
      deps := deps + {Edge(VersionEntry(delayed), NoticeEntry(delays[delayed].delayedBy))};
      pending := pending - {delayed};
    }
  }

  /** Every edge starts at a listed or delayed version: a version's
      dependencies are its own notice and, when delayed, the delayer's. */
  lemma DependenciesOf(versionIds: seq<string>, delays: map<string, Delay>, v: string, n: string)
    ensures Edge(VersionEntry(v), NoticeEntry(n)) in Dependencies(versionIds, delays) <==>
            (n == v && v in versionIds) || (v in delays && delays[v].delayedBy == n)
  {
  }

  // ---------------------------------------------------------------------
  // write_to_disk, write_if_needed

  /** `Version(identifier, effective, published)`. */
  datatype Version = Version(identifier: string, effective: Date, published: Date)

  /** `InvalidEffectiveDate`, the dependency error `validate_for` raises,
      and the `KeyError` of a version id without a notice. */
  datatype VersionError = InvalidEffectiveDate(versionId: string)
                        | DependencyMissing(versionId: string)
                        | NoticeMissing(versionId: string)

  /** `write_to_disk(xml, version_entry, delay)`: the version that is
      written, or the error raised when there is no effective date. */
  function WriteToDisk(xml: NoticeXml, delay: Option<Delay>): (r: Result<Version, VersionError>)
    ensures r.Success? ==> r.value.identifier == xml.versionId && r.value.published == xml.published
    ensures r.Failure? ==> r.error == InvalidEffectiveDate(xml.versionId)
  {
    var effective := if delay.None? then xml.effective else delay.value.until;
    match effective
    case None => Failure(InvalidEffectiveDate(xml.versionId))
    case Some(date) => Success(Version(xml.versionId, date, xml.published))
  }

  /** A delay's date replaces the notice's own effective date, whether or
      not the notice has one. */
  lemma DelayOverridesEffective(xml: NoticeXml, d: Delay, other: Option<Date>)
    ensures WriteToDisk(xml, Some(d)) == WriteToDisk(xml.(effective := other), Some(d))
    ensures WriteToDisk(xml, Some(d)).Success? <==> d.until.Some?
    ensures WriteToDisk(xml, Some(d)).Success? ==> WriteToDisk(xml, Some(d)).value.effective == d.until.value
  {
  }

  /** Without a delay the notice's own effective date is used, and its
      absence is the error. */
  lemma OwnEffectiveDate(xml: NoticeXml)
    ensures WriteToDisk(xml, None).Success? <==> xml.effective.Some?
    ensures WriteToDisk(xml, None).Success? ==> WriteToDisk(xml, None).value.effective == xml.effective.value
  {
  }

  /** `delays.get(version_id)`. */
  function Get(delays: map<string, Delay>, k: string): Option<Delay>
  {
    if k in delays then Some(delays[k]) else None
  }

  /** What `write_if_needed` writes before it returns or raises: each id in
      turn is validated, then skipped if fresh, then written. */
  function WriteRun(ids: seq<string>, xmls: map<string, NoticeXml>, delays: map<string, Delay>,
                    invalid: set<string>, stale: set<string>): (r: (seq<Version>, Option<VersionError>))
  {
    if ids == [] then ([], None)
    else
      var v := ids[0];
      if v in invalid then ([], Some(DependencyMissing(v)))
      else if v !in stale then WriteRun(ids[1..], xmls, delays, invalid, stale)
      else if v !in xmls then ([], Some(NoticeMissing(v)))
      else
        match WriteToDisk(xmls[v], Get(delays, v))
        case Failure(e) => ([], Some(e))
        case Success(version) =>
          var rest := WriteRun(ids[1..], xmls, delays, invalid, stale);
          ([version] + rest.0, rest.1)
  }

  /** `write_if_needed(cfr_title, cfr_part, version_ids, xmls, delays)`.
      The graph the source builds first is `GenerateDependencies`; the only
      use made of it is its `validate_for` and `is_stale` answers, which
      depend on the files on disk and are given here as the sets `invalid`
      and `stale`. */
  method WriteIfNeeded(versionIds: seq<string>, xmls: map<string, NoticeXml>, delays: map<string, Delay>,
                       invalid: set<string>, stale: set<string>)
    returns (written: seq<Version>, error: Option<VersionError>)
    ensures (written, error) == WriteRun(versionIds, xmls, delays, invalid, stale)
  {
    written := [];
    error := None;
    var i := 0;
    assert versionIds[0..] == versionIds;
    ghost var all := WriteRun(versionIds, xmls, delays, invalid, stale);
    assert [] + all.0 == all.0;
    assert all == (all.0, all.1);
    while i < |versionIds|
      invariant 0 <= i <= |versionIds|
      invariant WriteRun(versionIds, xmls, delays, invalid, stale) ==
                (written + WriteRun(versionIds[i..], xmls, delays, invalid, stale).0,
                 WriteRun(versionIds[i..], xmls, delays, invalid, stale).1)
      invariant error.None?
    {
      var versionId := versionIds[i];
      ghost var here := WriteRun(versionIds[i..], xmls, delays, invalid, stale);
      ghost var rest := WriteRun(versionIds[i + 1..], xmls, delays, invalid, stale);
      assert versionIds[i..][0] == versionId && versionIds[i..][1..] == versionIds[i + 1..];
      if versionId in invalid {
        error := Some(DependencyMissing(versionId));
        assert here == ([], error) && written + [] == written;
        return;
      }
      if versionId in stale {
        if versionId !in xmls {
          error := Some(NoticeMissing(versionId));
          assert here == ([], error) && written + [] == written;
          return;
        }
        var result := WriteToDisk(xmls[versionId], Get(delays, versionId));
        if result.Failure? {
          error := Some(result.error);
          assert here == ([], error) && written + [] == written;
          return;
        }
        assert here == ([result.value] + rest.0, rest.1);
        assert written + here.0 == (written + [result.value]) + rest.0;
        written := written + [result.value];
      } else {
        assert here == rest;
      }
      i := i + 1;
    }
    assert versionIds[i..] == [];
    assert written + [] == written;
  }

  /** The ids that get written when nothing goes wrong: the stale ones, in
      order. */
  function StaleIds(ids: seq<string>, stale: set<string>): seq<string>
  {
    Filter(ids, v => v in stale)
  }

  /** A run that raises nothing validated every id and wrote exactly the
      stale ones, in order, each with its own delay. */
  lemma {:induction false} WriteRunComplete(ids: seq<string>, xmls: map<string, NoticeXml>,
                                            delays: map<string, Delay>, invalid: set<string>, stale: set<string>)
    requires WriteRun(ids, xmls, delays, invalid, stale).1.None?
    ensures forall v :: v in ids ==> v !in invalid
    ensures var written := WriteRun(ids, xmls, delays, invalid, stale).0;
            var s := StaleIds(ids, stale);
            |written| == |s| &&
            forall j :: 0 <= j < |s| ==>
              (s[j] in xmls && WriteToDisk(xmls[s[j]], Get(delays, s[j])) == Success(written[j]))
  {
    if ids != [] {
      WriteRunComplete(ids[1..], xmls, delays, invalid, stale);
      assert ids == [ids[0]] + ids[1..];
      FilterCons(ids, v => v in stale);
    }
  }

  lemma FilterCons<T(!new)>(s: seq<T>, p: T -> bool)
    requires s != []
    ensures Filter(s, p) == (if p(s[0]) then [s[0]] else []) + Filter(s[1..], p)
  {
    assert s == [s[0]] + s[1..];
    FilterAppend([s[0]], s[1..], p);
    assert Filter([s[0]], p) == if p(s[0]) then [s[0]] else [];
  }

  /** Validation comes before the staleness check: an invalid first id
      stops the run with nothing written, stale or not. */
  lemma ValidateBeforeStale(ids: seq<string>, xmls: map<string, NoticeXml>,
                            delays: map<string, Delay>, invalid: set<string>, stale: set<string>)
    requires ids != [] && ids[0] in invalid
    ensures WriteRun(ids, xmls, delays, invalid, stale) == ([], Some(DependencyMissing(ids[0])))
  {
  }

  /** Whatever happens, every written version is the notice of a stale,
      listed id. */
  lemma {:induction false} WrittenAreStale(ids: seq<string>, xmls: map<string, NoticeXml>,
                                           delays: map<string, Delay>, invalid: set<string>, stale: set<string>)
    ensures forall w :: w in WriteRun(ids, xmls, delays, invalid, stale).0 ==>
              exists v :: v in ids && v in stale && v in xmls && w.identifier == xmls[v].versionId
  {
    if ids != [] {
      WrittenAreStale(ids[1..], xmls, delays, invalid, stale);
    }
  }
}

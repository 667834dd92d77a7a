# Regulation amendments and versions, modelled in Dafny

This project models two parts of a regulations parser.

**The amendment engine (`regparser.notice.changes`).** A final rule is a
list of amendment directives: POST, PUT, DELETE, MOVE, RESERVE, DESIGNATE,
KEEP. Each names a label template such as `200-?-2-a`, where `?` stands for
a level the extractor could not fill. The engine works in six steps:

- it resolves each template to a label id and files a change under it in an
  ordered *amend map*;
- it takes the node at that label from the regulation tree;
- when the label is not in the tree, it takes a tentative node instead (a
  *candidate*: the deepest node ending in the same paragraph marker that is
  not ruled out by the labels already claimed);
- it settles the candidates in a post-pass;
- it turns a subtree insertion into one change per node;
- it describes each change in one line.

`NoticeChanges` collects the changes of a notice per amendment paragraph and
drops duplicates. The implementation module itself is not part of this model.
Its behaviour is taken from `tests/notice_changes_tests.py`:

- every test case except the two XML ones (`test_find_subpart`, `test_fix_section_node`) is a lemma or a method here;
- the general definitions are the simplest rules that fit those cases;
- the general properties are proved about those definitions.

**The `versions` command (`regparser/commands/versions.py`).** It works in
five steps:

- it lists the version ids of a regulation: the local "split" ids of each
  final rule, or else its bare document number;
- it computes the latest effective-date delay of each version;
- it builds the dependency edges of the index;
- it writes each stale version with its effective date;
- it fails when a version has no effective date.

The Federal Register lookup and the notice directory are inputs. The
dependency graph's `validate_for` and `is_stale` answers are the sets
`invalid` and `stale`.

Files:

- `wrappers.dfy`, `strings.dfy`, `seqs.dfy`: Option/Result, dash splitting
  and joining, filtering and a stable sort.
- `tree.dfy`: nodes and labels.
- `labels.dfy`: `bad_label` and `impossible_label`.
- `amendments.dfy`: directives and changes.
- `candidates.dfy`: candidate search.
- `flatten.dfy`: subtree flattening.
- `amend_map.dfy`: the amend map and `resolve_candidates`.
- `matcher.dfy`: `match_labels_and_changes`.
- `pretty.dfy`: `pretty_change`.
- `notice_changes.dfy`: `NoticeChanges`.
- `versions.dfy`: the `versions` command.

## Model

| member | source | states |
|---|---|---|
| `Tree.Find` | tests/notice_changes_tests.py:30-32 | `find(root, id)`: the node found is in the tree and has that label id; no node has it when nothing is found |
| `Tree.FindFirst` | tests/notice_changes_tests.py:30-32 | `find` returns the first node of the depth-first walk that has the id, not just any such node |
| `Labels.BadLabel` | tests/notice_changes_tests.py:228-240 | the `bad_label` rule itself; it has no contract of its own and is characterised by `BadLabelCases` and `BadLabelExtends` |
| `Labels.ImpossibleLabel` | tests/notice_changes_tests.py:242-248 | the `impossible_label` rule itself; it has no contract of its own and is characterised by `ImpossibleLabelRejects`, `ImpossibleLabelAccepts` and `ImpossibleLabelAntitone` |
| `Labels.BadLabelCases` | tests/notice_changes_tests.py:228-240 | the four `bad_label` cases: `205-4-a-1-ii-A` is good; `205-38-i-vii-A`, `205-ii` and `205-38-A-vii-A` are bad |
| `Labels.BadLabelExtends` | tests/notice_changes_tests.py:228-240 | a bad label stays bad whatever tokens are added below it |
| `Labels.ImpossibleLabelRejects` | tests/notice_changes_tests.py:242-245 | with `205-35-c-1` and `205-35-c-2` claimed, `205-35-v` is impossible |
| `Labels.ImpossibleLabelAccepts` | tests/notice_changes_tests.py:247-248 | with the same claims, `205-35-c-1-i` is possible |
| `Labels.ImpossibleLabelAntitone` | tests/notice_changes_tests.py:242-248 | a node impossible under more claims is impossible under fewer |
| `Amendments.TemplateTokens` | tests/notice_changes_tests.py:164-175 | a resolved label has no `?` placeholder and no token contains a dash |
| `Amendments.AmendedIdRoundTrip` | tests/notice_changes_tests.py:164-175 | a template without placeholders is its own label id |
| `Amendments.TemplateJoin` | tests/notice_changes_tests.py:164-175 | a template written as dash-separated pieces resolves to exactly its non-`?` pieces, in order |
| `Amendments.NewSubpartAdded` | tests/notice_changes_tests.py:291-299 | the `new_subpart_added` rule itself; it has no contract of its own and is characterised by `NewSubpartAddedPieces`, `NewSubpartAddedLabel` and the three case lemmas |
| `Amendments.NewSubpartAddedPieces` | tests/notice_changes_tests.py:291-299 | for any template of dash-separated pieces, a subpart is added if and only if the directive is a POST and the last piece is a `Subpart:` token |
| `Amendments.NewSubpartAddedLabel` | tests/notice_changes_tests.py:291-299 | a directive that adds a subpart is a POST whose amended label ends in a `Subpart:` token |
| `Amendments.NewSubpartAddedPost` | tests/notice_changes_tests.py:291-293 | POST `200-Subpart:B` adds a new subpart |
| `Amendments.NewSubpartAddedPut` | tests/notice_changes_tests.py:295-296 | PUT `200-Subpart:B` does not add a subpart |
| `Amendments.NewSubpartAddedParagraph` | tests/notice_changes_tests.py:298-299 | POST `200-Subpart:B-a-3` does not add a subpart |
| `Candidates.FindCandidate` | tests/notice_changes_tests.py:25-40 | `find_candidate` returns exactly the tree nodes that end in the marker and, once some labels are claimed, are not impossible under them (with no claims the impossibility filter is skipped), deepest first |
| `Candidates.EligibleMembers` | tests/notice_changes_tests.py:25-57 | the unsorted pool holds exactly the qualifying nodes |
| `Candidates.DeepestFirst` | tests/notice_changes_tests.py:30-35 | when any node qualifies, the first candidate is at least as deep as it |
| `Candidates.DeepestFirstAll` | tests/notice_changes_tests.py:30-35 | a non-empty result starts with a node at least as deep as every qualifying node |
| `Candidates.FindCandidateTieBreak` | tests/notice_changes_tests.py:25-35 | candidates of equal depth keep depth-first order (the sort is stable) |
| `Candidates.FindMisparsedNode` | tests/notice_changes_tests.py:59-68 | only `node` and `candidate` may change; when any node qualifies the result is marked candidate and carries a deepest qualifying node; when none does the change comes back as it was |
| `CandidateCases.FindCandidateSingle` | tests/notice_changes_tests.py:25-28 | on the six-node test tree, marker `i` finds `n1i` first |
| `CandidateCases.FindMisparsedCase` | tests/notice_changes_tests.py:59-68 | a PUT gets `200-1-i` as a tentative node and stays a PUT |
| `CandidateCases.FindCandidateAbsent` | tests/notice_changes_tests.py:37-40 | marker `j` finds nothing |
| `CandidateCases.FindCandidatePrefersDeeper` | tests/notice_changes_tests.py:30-35 | once `200-2-i-i` is added, it beats `200-1-i` |
| `CandidateCases.NestedNodeImpossible` | tests/notice_changes_tests.py:42-57 | with `200-1-a` and `200-1-b` claimed, `200-1-a-1-i` is impossible |
| `CandidateCases.FindCandidateSkipsImpossible` | tests/notice_changes_tests.py:42-57 | with those claims, `200-1-i` is returned first, not the deeper `200-1-a-1-i` |
| `Flatten.FlattenedIsWalk` | tests/notice_changes_tests.py:108-116 | what `flatten_tree` appends is the subtree's depth-first walk with children dropped: one entry per node, none with children |
| `Flatten.FlattenedAllSnoc` | tests/notice_changes_tests.py:108-116 | flattening one more child appends that child's flattening |
| `Flatten.NodeList.constructor` | tests/notice_changes_tests.py:111 | the caller's list starts empty |
| `Flatten.FlattenTree` | tests/notice_changes_tests.py:108-116 | `flatten_tree` appends the subtree's flattening to the caller's list and keeps what was there |
| `Flatten.CreateAddAmendment` | tests/notice_changes_tests.py:70-106 | one change per subtree node, each keyed by that node's label id; all carry the amendment's action and a node without children; only the root's change carries the explicit parent label |
| `FlattenCases.FlattenTestTree` | tests/notice_changes_tests.py:108-116 | the test tree flattens to 6 entries, none with children |
| `FlattenCases.CreateAddAmendmentCase` | tests/notice_changes_tests.py:70-106 | on the test tree: six POST changes keyed `200`, `200-1`, `200-1-i`, `200-2`, `200-3`, `200-3-a`; only `200` has the parent label |
| `AmendMaps.Lookup` | tests/notice_changes_tests.py:118-162 | a key has a list exactly when it is in the map, and the list is the one filed under it |
| `AmendMaps.RemoveKey` | tests/notice_changes_tests.py:137-162 | `del amend_map[k]` keeps exactly the other entries, and the keys stay distinct |
| `AmendMaps.RemoveKeyOrder` | tests/notice_changes_tests.py:137-162 | `del amend_map[k]` keeps the remaining entries in their old order |
| `AmendMaps.AppendChange` | tests/notice_changes_tests.py:164-175 | `amend_map[k].append(c)` on a default dict: `k`'s list gains `c` at the end (a new key is appended last with `[c]`, and an existing key keeps its place); other entries are kept |
| `AmendMaps.Relabel` | tests/notice_changes_tests.py:118-135 | a candidate whose node has another label id gets the key's label; nothing else changes; settled changes are untouched |
| `AmendMaps.ResolveKey` | tests/notice_changes_tests.py:118-162 | one key's step keeps every other entry and leaves the key, if present, settled |
| `AmendMaps.ResolveFrom` | tests/notice_changes_tests.py:118-162 | keys not yet visited are kept as they were; visited keys that remain are settled; no key is added |
| `AmendMaps.ResolvedSettled` | tests/notice_changes_tests.py:118-135 | after `resolve_candidates` every candidate carries the label id it is filed under |
| `AmendMaps.ResolveIdempotent` | tests/notice_changes_tests.py:118-162 | a second pass changes nothing |
| `AmendMaps.DefinitiveKept` | tests/notice_changes_tests.py:137-149 | an entry without candidates survives the pass unchanged |
| `AmendMaps.AccountedRemoved` | tests/notice_changes_tests.py:137-149 | a candidate whose own label id is filed definitively elsewhere removes its key |
| `AmendMaps.AccountedStep` | tests/notice_changes_tests.py:137-149 | the one-key step drops a key one of whose candidates carries the label id of another filed key |
| `AmendMaps.UnaccountedKept` | tests/notice_changes_tests.py:118-135 | an entry with no accounted-for candidate stays, its candidates relabelled to its key |
| `AmendMaps.AmendMap.constructor` | tests/notice_changes_tests.py:119 | the map starts empty |
| `AmendMaps.AmendMap.Append` | tests/notice_changes_tests.py:164-175 | appends the change under the key, in place |
| `AmendMaps.AmendMap.ResolveCandidates` | tests/notice_changes_tests.py:118-162 | the map becomes the resolved map, in place, keys visited in map order |
| `AmendMaps.ResolveStep` | tests/notice_changes_tests.py:118-162 | one iteration of the pass over the keys returns exactly `ResolveKey(m, key)` |
| `AmendMaps.ScanChanges` | tests/notice_changes_tests.py:118-162 | the loop over one key's changes reports whether any is accounted for, and the relabelled list |
| `AmendMapCases.ResolveRelabels` | tests/notice_changes_tests.py:118-135 | the candidate's id differs from `200-2-a-i` before the pass and is `200-2-a-i` after it |
| `AmendMapCases.ResolveAccountedFor` | tests/notice_changes_tests.py:137-149 | the accounted-for candidate's key goes and both definitive entries stay |
| `AmendMapCases.ResolveAccountedForCount` | tests/notice_changes_tests.py:137-149 | three keys become two |
| `AmendMapCases.ResolveDoubleDelete` | tests/notice_changes_tests.py:151-162 | two colliding candidates are dropped together; exactly one key remains |
| `Matcher.MatchedExplained` | tests/notice_changes_tests.py:164-226 | every filed change is explained by a directive: its key, action and field, a definitive node at that label, or a tentative node ending in the directive's marker |
| `Matcher.CandidateMarker` | tests/notice_changes_tests.py:210-224 | a tentative change's node ends in the last token of the key it is filed under |
| `Matcher.MatchedKeys` | tests/notice_changes_tests.py:164-226 | every key is the label id of some directive |
| `Matcher.EntriesNonEmpty` | tests/notice_changes_tests.py:164-226 | no key has an empty list |
| `Matcher.MoveDeleteFiled` | tests/notice_changes_tests.py:164-175 | every MOVE and DELETE is filed under its label id, tree or no tree |
| `Matcher.FiledKept` | tests/notice_changes_tests.py:164-226 | a step never removes a filed change |
| `Matcher.FiledPersists` | tests/notice_changes_tests.py:164-226 | a change filed after the first directives is still filed after all of them |
| `Matcher.ExactFiled` | tests/notice_changes_tests.py:177-208 | any directive other than MOVE or DELETE whose label id is in the tree is filed under that id with the node found there and no candidate flag, wherever it stands in the list |
| `Matcher.CandidateFiled` | tests/notice_changes_tests.py:210-224 | any directive other than MOVE or DELETE whose label id is absent is filed as a candidate with the misparsed node exactly when a node qualifies under the ids claimed before it; otherwise its step files nothing |
| `Matcher.NoTreeMoveDelete` | tests/notice_changes_tests.py:164-175 | without a tree only MOVE and DELETE changes are filed |
| `Matcher.MoveDeleteStep` | tests/notice_changes_tests.py:164-175 | a MOVE or DELETE step files the directive's own change |
| `Matcher.ExactStep` | tests/notice_changes_tests.py:177-208 | a step whose label is in the tree files that node, definitively |
| `Matcher.CandidateStep` | tests/notice_changes_tests.py:210-224 | a step whose label is absent files the misparsed-node candidate, if there is one |
| `Matcher.MatchSingleMoveDelete` | tests/notice_changes_tests.py:164-175 | a lone MOVE or DELETE gives a one-entry map |
| `Matcher.MatchSingleExact` | tests/notice_changes_tests.py:177-186 | a lone directive found in the tree gives a one-entry map with that node |
| `Matcher.MatchPairExact` | tests/notice_changes_tests.py:196-208 | two directives found under different labels give two definitive entries in order |
| `Matcher.MatchPairCandidate` | tests/notice_changes_tests.py:210-224 | a directive found in the tree, then one that is not, gives the definitive entry and then a tentative one whose node qualifies under the first's claim |
| `Matcher.MatchLabelsAndChanges` | tests/notice_changes_tests.py:164-226 | the loop builds, in a fresh amend map, exactly the matched entries |
| `MatcherCases.MatchMove` | tests/notice_changes_tests.py:164-169 | MOVE `200-?-1` to `200-?-2` without a tree gives `{200-1: [MOVE to 200-2]}` |
| `MatcherCases.MatchDelete` | tests/notice_changes_tests.py:171-175 | DELETE `200-?-1-a-i` without a tree gives `{200-1-a-i: [DELETE]}` |
| `MatcherCases.SectionFind` | tests/notice_changes_tests.py:188-194 | `200-2` and `200-2-a` are found in the section tree |
| `MatcherCases.MatchReserve` | tests/notice_changes_tests.py:177-186 | RESERVE `200-?-2-a` is filed under `200-2-a` with node `200-2-a` |
| `MatcherCases.MatchPostPut` | tests/notice_changes_tests.py:196-208 | POST `200-?-2` and PUT `200-?-2-a` give two definitive entries |
| `MatcherCases.CandidateQualifying` | tests/notice_changes_tests.py:210-224 | with `200-2` claimed, only `200-2-i` qualifies for marker `i` |
| `MatcherCases.MatchCandidate` | tests/notice_changes_tests.py:210-224 | PUT `200-?-2-a-1-i` is filed under `200-2-a-1-i` as a candidate with node `200-2-i` |
| `Pretty.TitleCase` | tests/notice_changes_tests.py:286-289 | title-casing keeps the length |
| `Pretty.TitleCaseAt` | tests/notice_changes_tests.py:286-289 | the first letter of each word is upper-cased; every other character is kept |
| `Pretty.TitleCaseIdempotent` | tests/notice_changes_tests.py:286-289 | title-casing twice equals title-casing once |
| `Pretty.Unbracket` | tests/notice_changes_tests.py:286-289 | a bracketed field name loses exactly its brackets; others are kept |
| `Pretty.PrettyChange` | tests/notice_changes_tests.py:250-289 | a description exists exactly for the describable changes |
| `Pretty.PrettyMoveRoundTrip` | tests/notice_changes_tests.py:259-262 | the text after `Moved to ` splits back into the destination |
| `Pretty.PrettyFieldOverrides` | tests/notice_changes_tests.py:282-289 | with a field set, POST, PUT and other non-fixed actions describe alike |
| `Pretty.PrettyEndsWithText` | tests/notice_changes_tests.py:264-289 | additions, modifications and non-title field changes end in `: ` and the node text |
| `Pretty.PrettyFieldText` | tests/notice_changes_tests.py:286-289 | any field other than `[title]` is described by its humanised name, ` changed to: ` and the node's text, whatever the action |
| `Pretty.PrettyTitleNote` | tests/notice_changes_tests.py:273-280 | a title inserts exactly ` (title: t)` before the closing `: text` |
| `Pretty.PrettyFixedWord` | tests/notice_changes_tests.py:252-258 | DELETE, RESERVE and KEEP give `Deleted`, `Reserved` and `Mentioned but not modified` whatever else the change holds |
| `Pretty.PrettyAddModify` | tests/notice_changes_tests.py:264-280 | a POST or PUT without a field is described as `Added` or `Modified`, then the title note when the node has a title, then `: ` and the node text, for every node |
| `Pretty.PrettyTitleField` | tests/notice_changes_tests.py:282-284 | a `[title]` field gives `Title changed to: ` and the node's title, whatever the action; without a title there is no description |
| `PrettyCases.PrettyFixedCases` | tests/notice_changes_tests.py:252-258 | `Deleted`, `Reserved`, `Mentioned but not modified` |
| `PrettyCases.PrettyDesignateCase` | tests/notice_changes_tests.py:259-262 | `Moved to 123-43-a-2` |
| `PrettyCases.PrettyModifiedCase` | tests/notice_changes_tests.py:264-267 | `Modified: Some Text` |
| `PrettyCases.PrettyAddedCase` | tests/notice_changes_tests.py:269-271 | `Added: Some Text` |
| `PrettyCases.PrettyAddedTitleCase` | tests/notice_changes_tests.py:273-275 | `Added (title: A Title): Some Text` |
| `PrettyCases.PrettyModifiedTitleCase` | tests/notice_changes_tests.py:277-280 | `Modified (title: A Title): Some Text` |
| `PrettyCases.HumanizeCase` | tests/notice_changes_tests.py:287-289 | `[a field]` shows as `A Field` |
| `PrettyCases.PrettyTitleFieldCase` | tests/notice_changes_tests.py:282-284 | a `[title]` field is described as `Title changed to: A Title` |
| `PrettyCases.PrettyOtherFieldCase` | tests/notice_changes_tests.py:286-289 | the `[a field]` field of an untitled node is described as `A Field changed to: Some Text` |
| `Aggregation.AddChange` | tests/notice_changes_tests.py:344-349 | a change is appended to its label's list unless an equal change is already there |
| `Aggregation.AddChangeOthers` | tests/notice_changes_tests.py:344-349 | other labels' lists are untouched |
| `Aggregation.AddAll` | tests/notice_changes_tests.py:344-349 | the group keeps one entry per label |
| `Aggregation.AddAllValid` | tests/notice_changes_tests.py:341-359 | no list ever holds a change twice |
| `Aggregation.AddAllMembership` | tests/notice_changes_tests.py:341-359 | a change is under a label after the call exactly when it was before or the call brought it |
| `Aggregation.AddAllExtends` | tests/notice_changes_tests.py:341-359 | first-arrival order: a label's earlier list is a prefix of its later list |
| `Aggregation.AddAllPresent` | tests/notice_changes_tests.py:346 | a call that brings only present changes changes nothing |
| `Aggregation.AddAllIdempotent` | tests/notice_changes_tests.py:341-359 | repeating a call is a no-op |
| `Aggregation.NoticeChanges.constructor` | tests/notice_changes_tests.py:343 | no groups at first |
| `Aggregation.NoticeChanges.AddChanges` | tests/notice_changes_tests.py:344-351 | only the provenance's group changes: it becomes the old group (empty if new) with the pairs added in order; no list gains a repeat |
| `AggregationCases.TwoFresh` | tests/notice_changes_tests.py:344-345 | filing one change under each of two new labels leaves exactly that change under each and nothing under a third label |
| `AggregationCases.FirstCall` | tests/notice_changes_tests.py:344-345 | for any three distinct labels, the first call leaves `[DELETE]` under the first, `[OTHER]` under the second and nothing under the third |
| `AggregationCases.SecondCall` | tests/notice_changes_tests.py:346 | repeating a change already filed under its label leaves the filing unchanged |
| `AggregationCases.ThirdCall` | tests/notice_changes_tests.py:347 | a different change under the first label goes after the DELETE; the other labels keep their lists |
| `AggregationCases.FourthCall` | tests/notice_changes_tests.py:348-349 | the repeated OTHER is suppressed, LAST starts the empty third label, the first label is untouched |
| `AggregationCases.UpdateDuplicates` | tests/notice_changes_tests.py:341-359 | for any three distinct changes in the roles of DELETE, OTHER and LAST, the four calls on one `NoticeChanges` end with `123-12: [DELETE, OTHER]`, `123-22: [OTHER]`, `123-32: [LAST]` |
| `Versions.SplitEntries` | regparser/commands/versions.py:25-26 | exactly the present ids that start with the number, `_` and eight digits |
| `Versions.IdsFor` | regparser/commands/versions.py:28 | at least one id: the split ids, or the bare number exactly when none is split from it |
| `Versions.FetchVersionIds` | regparser/commands/versions.py:16-30 | the loop's list is the document numbers' ids in fetch order |
| `Versions.VersionIdsLength` | regparser/commands/versions.py:22-28 | every document number contributes at least one id |
| `Versions.VersionIdsMembership` | regparser/commands/versions.py:22-28 | an id is listed exactly when some document number contributes it |
| `Seqs.SortBySorted` | regparser/commands/versions.py:41 | `sorted` orders by the key and is a permutation |
| `Seqs.SortByStable` | regparser/commands/versions.py:41 | `sorted` keeps the order of items with equal keys |
| `Versions.ComputeDelays` | regparser/commands/versions.py:36-46 | the three nested loops compute the delays map |
| `Versions.LastFor` | regparser/commands/versions.py:42-45 | a delayer has a date for a version exactly when one of its delays applies to it |
| `Versions.LastDelayer` | regparser/commands/versions.py:41-45 | the last delayer in visiting order that applies to a version; no later one applies |
| `Versions.ApplySpecAt` | regparser/commands/versions.py:43-45 | the innermost loop sets a version's entry exactly when a notice with that id is modified |
| `Versions.ApplyDelayerAt` | regparser/commands/versions.py:42-45 | within one delayer, its last applicable delay wins |
| `Versions.DelaysFromAt` | regparser/commands/versions.py:41-45 | across delayers, the last applicable one in visiting order wins |
| `Versions.LatestDelayerWins` | regparser/commands/versions.py:40-45 | the recorded delay is `Delay(by, until)` of a delayer that applies; no applying delayer was published later |
| `Versions.DelaysKeys` | regparser/commands/versions.py:43-45 | a version is delayed exactly when its notice is present and some delay applies to it |
| `Versions.Dependencies` | regparser/commands/versions.py:49-58 | every edge goes from a version entry to a notice entry |
| `Versions.GenerateDependencies` | regparser/commands/versions.py:49-58 | the loops add exactly the dependency edges |
| `Versions.DependenciesOf` | regparser/commands/versions.py:54-57 | a version depends on its own notice if listed, on its delayer's notice if delayed, and on nothing else |
| `Versions.WriteToDisk` | regparser/commands/versions.py:68-75 | the written version has the notice's id and publication date; the only error is `InvalidEffectiveDate(version_id)` |
| `Versions.DelayOverridesEffective` | regparser/commands/versions.py:70-72 | with a delay, its date is the effective date whatever the notice says; a missing date is the error |
| `Versions.OwnEffectiveDate` | regparser/commands/versions.py:70-72 | without a delay, the notice's effective date is used; its absence is the error |
| `Versions.WriteIfNeeded` | regparser/commands/versions.py:78-89 | the loop writes and fails exactly as the run definition says |
| `Versions.WriteRunComplete` | regparser/commands/versions.py:84-89 | a run without error validated every id and wrote exactly the stale ids, in order, each with its own delay |
| `Versions.ValidateBeforeStale` | regparser/commands/versions.py:86-87 | an invalid id stops the run before its staleness is looked at |
| `Versions.WrittenAreStale` | regparser/commands/versions.py:84-89 | every written version belongs to a listed, stale id that has a notice |

## Left out

- `find_subpart` and `fix_section_node` work on XML, and are not part of this model. The `amdpar_xml` field of a change is always `None`, so it is omitted from `Change`.
- The notice preprocessors and the web API work on XML documents, HTTP, queues and storage. They are not part of this model.
- `fetch_notice_json` is a network call and `notice_dir.sub_entries` a directory listing. Their results are the parameters `documentNumbers` and `presentIds`.
- `entry.read`, `entry.write` and `entry.exists` touch the filesystem. A written version is returned in `written` instead of being stored.
- `dependency.Graph.validate_for` and `is_stale` are not part of this model. Their answers are the sets `invalid` and `stale`, and the graph is the edge set.
- The `versions` click command only wires the steps together with I/O and logging, so it is not modelled.
- `Versions.DelaySpec`: a delay's `modifies_notice_xml` predicate is a set of the version ids it applies to.
- `Versions.Date`: dates are integers, and a falsy effective date is `None`.
- `Versions.IsSplitOf`: the `\d` of the pattern is an ASCII digit; Python also accepts other Unicode digits.
- `Versions.WriteRun`: a missing notice for a stale id is the error `NoticeMissing`, standing for Python's `KeyError`.
- `Labels.BadLabel`: the marker progression (numbers, then `a`, `1`, `i`, `A` repeating) is this model's own choice. Only the four cases of the test are claimed for it.
- `Labels.ImpossibleLabel`: a node is possible when a claimed label is its parent or a sibling of it. A rule based on depth alone would accept `205-35-v` given `205-35-c-1`, which the test rejects.
- `Candidates.FindCandidate`: with no labels claimed it skips the impossibility filter, since `ImpossibleLabel` rules out every node when nothing is claimed.
- `Candidates.FindCandidate`: it does not apply `bad_label`. The test expects `200-2-i-i` back, and that label breaks the marker progression.
- `MatcherCases.MatchCandidate`: it does not state that the candidate is relabelled. The test's two-argument `assertTrue` asserts nothing about the label.
- `Matcher.Matched` does not call `resolve_candidates`; that pass runs separately.
- `Pretty.PrettyChange` returns `None` for a change it cannot describe (a move without a destination, a field or addition without a node, a `[title]` change without a title, an action that is not a fixed word, not a move, not POST or PUT and has no field, such as `OTHER`); no source text says what is returned for a change that cannot be described.
- `Pretty.Upper`: humanising upper-cases the ASCII letter that starts a word and leaves every other character as it is. A word starts only after a space, and later letters are not lower-cased, so `[a FIELD]` gives `A FIELD` and `[a-field]` gives `A-field`; the test fixes only `[a field]`, and a rule that also lower-cases or splits at other characters would give different names for such fields.
- `Aggregation.NoticeChanges.AddChanges` takes its changes as a sequence of pairs. Python takes a dict, whose iteration order is its insertion order.
- `AmendMaps.Accounted`: a candidate is accounted for when its node's label id is any other key of the map, whatever that key's list holds (empty, or candidates only). A rule under which only a non-candidate entry accounts for a candidate would keep `200-1-a-i` in the double-delete test, which expects it dropped because of the empty `200-1-i` entry.
- `AmendMaps.ResolveKey`: when several keys hold candidates aimed at the same absent label, every one of them is kept, relabelled to its own key. A rule that keeps only the first such key in key order would drop the others; no test fixes this case.
- `AmendMaps.AmendMap.ResolveCandidates` has no `warn` argument: the diagnostic that `warn=True` logs for a dropped candidate is logging only and is not modelled.
- `AmendMaps.ResolveKey`: an accounted-for candidate drops its whole key, including any definitive change filed under that key beside it.
- `Amendments.Change`: an absent key is `None` or `false`, so `{'action': 'DELETE'}` and `{'action': 'DELETE', 'candidate': False}` are the same change here. Dict equality, which `add_changes` uses to drop duplicates, tells them apart.
- Python dicts, nodes and lists are shared objects. Here the amend map and the groups are values, so aliasing between a change's node and the tree is not modelled.

/** Amendment directives as the directive extractor hands them over, and the
    change records the engine files for each resolved label. */
module Amendments {
  import opened Wrappers
  import opened Strings
  import opened Tree

  /** The directive verbs (`POST`, `PUT`, `DELETE`, `MOVE`, `RESERVE`,
      `DESIGNATE`, `KEEP`); any other action string is carried as is. */
  datatype Action = Post | Put | Delete | Move | Reserve | Designate | Keep
                  | OtherAction(name: string)

  /** One change filed under a label: the `change` dict of the Python code.
      `node` is the payload (a copy of the affected node), `destination` the
      target of a move, `field` a sub-field such as `[title]`, `parentLabel`
      an explicit parent for an inserted subtree, `candidate` marks a
      tentative match. */
  datatype Change = Change(action: Action, node: Option<Node>,
                           destination: Option<seq<string>>, field: Option<string>,
                           parentLabel: Option<seq<string>>, candidate: bool)

  /** A directive: action, label template with `?` placeholders (for
      instance `200-?-1`), optional destination template and optional field. */
  datatype Amendment = Amendment(action: Action, template: string,
                                 destination: Option<string>, field: Option<string>)

  /** The pieces of a template that are not the `?` placeholder, in
      order. */
  function Concretes(pieces: seq<string>): seq<string>
  {
    if pieces == [] then []
    else if pieces[0] == "?" then Concretes(pieces[1..])
    else [pieces[0]] + Concretes(pieces[1..])
  }

  lemma {:induction false} ConcretesWithin(pieces: seq<string>)
    ensures forall k :: 0 <= k < |Concretes(pieces)| ==>
              Concretes(pieces)[k] in pieces && Concretes(pieces)[k] != "?"
  {
    if pieces != [] {
      ConcretesWithin(pieces[1..]);
    }
  }

  /** Without placeholders every piece is kept. */
  lemma {:induction false} ConcretesAll(pieces: seq<string>)
    requires forall k :: 0 <= k < |pieces| ==> pieces[k] != "?"
    ensures Concretes(pieces) == pieces
  {
    if pieces != [] {
      ConcretesAll(pieces[1..]);
    }
  }

  /** The concrete tokens of a template: its dash-separated pieces without
      the `?` placeholders. */
  function TemplateTokens(template: string): (r: seq<string>)
    ensures forall k :: 0 <= k < |r| ==> r[k] != "?" && '-' !in r[k]
  {
    var pieces := Split(template, '-');
    ConcretesWithin(pieces);
    Concretes(pieces)
  }

  /** The amended label (`amendment.label`). */
  function AmendedLabel(a: Amendment): seq<string>
  {
    TemplateTokens(a.template)
  }

  /** `amendment.label_id()`. */
  function AmendedId(a: Amendment): string
  {
    LabelId(AmendedLabel(a))
  }

  predicate IsSubpartToken(t: string)
  {
    StartsWith(t, "Subpart:")
  }

  /** `new_subpart_added(amendment)`: an added label ending in a subpart
      token. */
  predicate NewSubpartAdded(a: Amendment)
  {
    var pieces := Split(a.template, '-');
    a.action == Post && IsSubpartToken(pieces[|pieces| - 1])
  }

  /** The ids of templates without placeholders join back to the template. */
  lemma {:induction false} AmendedIdRoundTrip(a: Amendment)
    requires '?' !in a.template
    ensures AmendedId(a) == a.template
  {
    var pieces := Split(a.template, '-');
    SplitPiecesWithin(a.template, '-');
    assert forall k :: 0 <= k < |pieces| ==> pieces[k] != "?";
    ConcretesAll(pieces);
    JoinSplit(a.template, '-');
  }

  /** A template written as dash-separated pieces resolves to exactly the
      pieces that are not the `?` placeholder, in order. */
  lemma TemplateJoin(template: string, pieces: seq<string>)
    requires |pieces| >= 1 && forall k :: 0 <= k < |pieces| ==> '-' !in pieces[k]
    requires template == Join(pieces, '-')
    ensures TemplateTokens(template) == Concretes(pieces)
  {
    SplitJoin(pieces, '-');
  }

  /** The last concrete piece of a template whose last piece is not the
      placeholder is that last piece. */
  lemma {:induction false} ConcretesLast(pieces: seq<string>)
    requires |pieces| >= 1 && pieces[|pieces| - 1] != "?"
    ensures |Concretes(pieces)| >= 1
    ensures Concretes(pieces)[|Concretes(pieces)| - 1] == pieces[|pieces| - 1]
  {
    if |pieces| > 1 {
      ConcretesLast(pieces[1..]);
      assert pieces[1..][|pieces[1..]| - 1] == pieces[|pieces| - 1];
    }
  }

  /** For a template written as dash-separated pieces, a subpart is added
      exactly when the directive is a POST and its last piece is a subpart
      token: any other action, or any piece below the subpart, rules it
      out. */
  lemma NewSubpartAddedPieces(a: Amendment, pieces: seq<string>)
    requires |pieces| >= 1 && forall k :: 0 <= k < |pieces| ==> '-' !in pieces[k]
    requires a.template == Join(pieces, '-')
    ensures NewSubpartAdded(a) <==> a.action == Post && IsSubpartToken(pieces[|pieces| - 1])
  {
    assert Split(a.template, '-') == pieces by {
      SplitJoin(pieces, '-');
    }
    var last := pieces[|pieces| - 1];
    assert NewSubpartAdded(a) == (a.action == Post && IsSubpartToken(last));
  }

  /** A directive that adds a subpart is a POST whose amended label ends in
      that subpart's token. */
  lemma NewSubpartAddedLabel(a: Amendment)
    requires NewSubpartAdded(a)
    ensures a.action == Post
    ensures |AmendedLabel(a)| >= 1 && IsSubpartToken(AmendedLabel(a)[|AmendedLabel(a)| - 1])
  {
    var pieces := Split(a.template, '-');
    assert pieces[|pieces| - 1] != "?" by {
      assert IsSubpartToken(pieces[|pieces| - 1]);
    }
    ConcretesLast(pieces);
  }

  /** The `new_subpart_added` test, first case: adding `200-Subpart:B` adds
      a subpart. */
  lemma NewSubpartAddedPost()
    ensures NewSubpartAdded(Amendment(Post, "200-Subpart:B", None, None))
  {
    SplitJoin(["200", "Subpart:B"], '-');
    assert Join(["200", "Subpart:B"], '-') == "200-Subpart:B";
  }

  /** Second case: revising `200-Subpart:B` does not. */
  lemma NewSubpartAddedPut()
    ensures !NewSubpartAdded(Amendment(Put, "200-Subpart:B", None, None))
  {
  }

  /** Third case: adding a paragraph inside the subpart does not. */
  lemma NewSubpartAddedParagraph()
    ensures !NewSubpartAdded(Amendment(Post, "200-Subpart:B-a-3", None, None))
  {
    SplitJoin(["200", "Subpart:B", "a", "3"], '-');
    assert Join(["200", "Subpart:B", "a", "3"], '-') == "200-Subpart:B-a-3";
  }
}

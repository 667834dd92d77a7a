/** `pretty_change`: the one-line description of a change shown to readers,
    chosen by a fixed precedence of action, move, field and payload. */
module Pretty {
  import opened Wrappers
  import opened Strings
  import opened Tree
  import opened Amendments

  function Upper(c: char): char
  {
    if IsLower(c) then (c as int - 'a' as int + 'A' as int) as char else c
  }

  /** Upper-cases the first letter of every space-separated word; `atStart`
      says whether `s` begins a word. */
  function TitleCase(s: string, atStart: bool): (r: string)
    ensures |r| == |s|
  {
    if s == [] then []
    else [if atStart then Upper(s[0]) else s[0]] + TitleCase(s[1..], s[0] == ' ')
  }

  /** Whether position `i` of `s` begins a word. */
  predicate WordStart(s: string, atStart: bool, i: int)
    requires 0 <= i < |s|
  {
    if i == 0 then atStart else s[i - 1] == ' '
  }

  /** Position by position: the first letter of each word is upper-cased and
      every other character is kept. */
  lemma {:induction false} TitleCaseAt(s: string, atStart: bool)
    ensures forall i :: 0 <= i < |s| ==>
              TitleCase(s, atStart)[i] == if WordStart(s, atStart, i) then Upper(s[i]) else s[i]
  {
    if s != [] {
      TitleCaseAt(s[1..], s[0] == ' ');
      var r := TitleCase(s, atStart);
      forall i | 1 <= i < |s|
        ensures r[i] == if WordStart(s, atStart, i) then Upper(s[i]) else s[i]
      {
        assert r[i] == TitleCase(s[1..], s[0] == ' ')[i - 1];
        assert WordStart(s, atStart, i) == WordStart(s[1..], s[0] == ' ', i - 1);
      }
    }
  }

  /** Title-casing twice is title-casing once: spaces stay spaces, so the
      word starts do not move. */
  lemma {:induction false} TitleCaseIdempotent(s: string, atStart: bool)
    ensures TitleCase(TitleCase(s, atStart), atStart) == TitleCase(s, atStart)
  {
    if s != [] {
      var r := TitleCase(s, atStart);
      var head := if atStart then Upper(s[0]) else s[0];
      assert r[0] == head && r[1..] == TitleCase(s[1..], s[0] == ' ');
      assert (head == ' ') == (s[0] == ' ');
      TitleCaseIdempotent(s[1..], s[0] == ' ');
    }
  }

  /** The field name without its surrounding brackets (`[a field]` gives
      `a field`). */
  function Unbracket(field: string): (r: string)
    ensures |field| >= 2 && field[0] == '[' && field[|field| - 1] == ']' ==> "[" + r + "]" == field
    ensures !(|field| >= 2 && field[0] == '[' && field[|field| - 1] == ']') ==> r == field
  {
    if |field| >= 2 && field[0] == '[' && field[|field| - 1] == ']' then field[1..|field| - 1]
    else field
  }

  /** The field name as shown: unbracketed, each word capitalised. */
  function Humanize(field: string): string
  {
    TitleCase(Unbracket(field), true)
  }

  /** ` (title: …)` when the node has a title, nothing otherwise. */
  function TitleNote(title: Option<string>): string
  {
    match title
    case None => ""
    case Some(t) => " (title: " + t + ")"
  }

  predicate Moves(a: Action)
  {
    a == Move || a == Designate
  }

  /** Actions described by a fixed word, whatever else the change holds. */
  predicate Fixed(a: Action)
  {
    a == Delete || a == Reserve || a == Keep
  }

  /** The changes `pretty_change` can describe. For the others, such as a
      move without a destination or an action that is neither a fixed word,
      a move, POST nor PUT and has no field, no description is defined, and
      `PrettyChange` gives `None`. */
  predicate Describable(c: Change)
  {
    Fixed(c.action) ||
    (Moves(c.action) && c.destination.Some?) ||
    (!Moves(c.action) && c.field.Some? && c.node.Some? &&
     (c.field.value == "[title]" ==> c.node.value.title.Some?)) ||
    (c.field.None? && (c.action == Post || c.action == Put) && c.node.Some?)
  }

  /** `pretty_change(change)`: deletions, reservations and mentions first,
      then moves, then a changed field (which outranks POST and PUT), then
      additions and modifications with their optional title. */
  function PrettyChange(c: Change): (r: Option<string>)
    ensures r.Some? <==> Describable(c)
  {
    if c.action == Delete then Some("Deleted")
    else if c.action == Reserve then Some("Reserved")
    else if c.action == Keep then Some("Mentioned but not modified")
    else if Moves(c.action) then
      (match c.destination
       case None => None
       case Some(d) => Some("Moved to " + Join(d, '-')))
    else if c.field.Some? then
      (match c.node
       case None => None
       case Some(n) =>
         if c.field.value == "[title]" then
           (match n.title
            case None => None
            case Some(t) => Some("Title changed to: " + t))
         else Some(Humanize(c.field.value) + " changed to: " + n.text))
    else if c.action == Post || c.action == Put then
      (match c.node
       case None => None
       case Some(n) =>
         Some((if c.action == Post then "Added" else "Modified") + TitleNote(n.title) + ": " + n.text))
    else None
  }

  predicate EndsWith(s: string, suffix: string)
  {
    |suffix| <= |s| && s[|s| - |suffix|..] == suffix
  }

  /** A move's description gives its destination back: the text after
      `Moved to ` splits into the destination's tokens. */
  lemma PrettyMoveRoundTrip(c: Change)
    requires Moves(c.action) && c.destination.Some? && |c.destination.value| >= 1
    requires forall k :: 0 <= k < |c.destination.value| ==> '-' !in c.destination.value[k]
    ensures var r := PrettyChange(c);
            r.Some? && StartsWith(r.value, "Moved to ") &&
            Split(r.value[|"Moved to "|..], '-') == c.destination.value
  {
    var d := c.destination.value;
    var r := PrettyChange(c).value;
    assert r == "Moved to " + Join(d, '-');
    assert r[|"Moved to "|..] == Join(d, '-');
    SplitJoin(d, '-');
  }

  /** A field outranks POST and PUT: with a field set, the description is
      the same whichever of the two actions (or any other non-fixed,
      non-move action) the change carries. */
  lemma PrettyFieldOverrides(c: Change, other: Action)
    requires c.field.Some?
    requires !Fixed(c.action) && !Moves(c.action) && !Fixed(other) && !Moves(other)
    ensures PrettyChange(c.(action := other)) == PrettyChange(c)
  {
  }

  /** Deletions, reservations and mentions are described by their fixed
      word, whatever destination, field or payload the change carries. */
  lemma PrettyFixedWord(c: Change)
    requires Fixed(c.action)
    ensures c.action == Delete ==> PrettyChange(c) == Some("Deleted")
    ensures c.action == Reserve ==> PrettyChange(c) == Some("Reserved")
    ensures c.action == Keep ==> PrettyChange(c) == Some("Mentioned but not modified")
    ensures forall d: Change :: d.action == c.action ==> PrettyChange(d) == PrettyChange(c)
  {
  }

  /** An addition or modification without a field is described by its verb,
      the node's title when it has one, and the node's text. */
  lemma PrettyAddModify(c: Change)
    requires (c.action == Post || c.action == Put) && c.field.None? && c.node.Some?
    ensures PrettyChange(c) == Some((if c.action == Post then "Added" else "Modified") +
                                    TitleNote(c.node.value.title) + ": " + c.node.value.text)
  {
  }

  /** A change of the `[title]` field is described by the node's title,
      whatever the action, and cannot be described without one. */
  lemma PrettyTitleField(c: Change)
    requires c.field == Some("[title]") && c.node.Some?
    requires !Fixed(c.action) && !Moves(c.action)
    ensures c.node.value.title.Some? ==>
              PrettyChange(c) == Some("Title changed to: " + c.node.value.title.value)
    ensures c.node.value.title.None? ==> PrettyChange(c) == None
  {
  }

  /** A field other than the title is described by its humanised name and
      the node's text. */
  lemma PrettyFieldText(c: Change)
    requires c.field.Some? && c.field.value != "[title]" && c.node.Some?
    requires !Fixed(c.action) && !Moves(c.action)
    ensures PrettyChange(c) == Some(Humanize(c.field.value) + " changed to: " + c.node.value.text)
  {
  }

  /** Additions and modifications, and changes of a field other than the
      title, end with the node's text after a colon. */
  lemma PrettyEndsWithText(c: Change)
    requires Describable(c) && !Fixed(c.action) && !Moves(c.action)
    requires c.field != Some("[title]")
    ensures c.node.Some? && EndsWith(PrettyChange(c).value, ": " + c.node.value.text)
  {
  }

  /** A title adds exactly ` (title: t)` in front of the closing `: text`
      of an addition or a modification, and changes nothing else. */
  lemma PrettyTitleNote(c: Change, t: string)
    requires c.action == Post || c.action == Put
    requires c.field.None? && c.node.Some? && c.node.value.title.None?
    ensures var plain := PrettyChange(c).value;
            var titled := PrettyChange(c.(node := Some(c.node.value.(title := Some(t))))).value;
            var k := |plain| - |c.node.value.text| - 2;
            0 <= k && titled == plain[..k] + " (title: " + t + ")" + plain[k..]
  {
    var n := c.node.value;
    var verb := if c.action == Post then "Added" else "Modified";
    var note := " (title: " + t + ")";
    var plain := PrettyChange(c).value;
    var titled := PrettyChange(c.(node := Some(n.(title := Some(t))))).value;
    assert plain == verb + (": " + n.text) by {
      assert TitleNote(n.title) == "";
    }
    assert titled == verb + note + (": " + n.text) by {
      assert TitleNote(Some(t)) == note;
    }
    SpliceAt(verb, ": " + n.text, note);
  }

  /** Splitting `a + b` at `|a|` and putting `x` between the halves gives
      `a + x + b`. */
  lemma SpliceAt<T>(a: seq<T>, b: seq<T>, x: seq<T>)
    ensures (a + b)[..|a|] + x + (a + b)[|a|..] == a + x + b
  {
    assert (a + b)[..|a|] == a && (a + b)[|a|..] == b;
  }
}

/** The `pretty_change` test: one description per precedence rule. */
module PrettyCases {
  import opened Wrappers
  import opened Strings
  import opened Tree
  import opened Amendments
  import opened Pretty

  function Bare(a: Action): Change
  {
    Change(a, None, None, None, None, false)
  }

  function TextNode(title: Option<string>): Node
  {
    Node([], "Some Text", title, RegText, [])
  }

  lemma PrettyFixedCases()
    ensures PrettyChange(Bare(Delete)) == Some("Deleted")
    ensures PrettyChange(Bare(Reserve)) == Some("Reserved")
    ensures PrettyChange(Bare(Keep)) == Some("Mentioned but not modified")
  {
  }

  lemma PrettyDesignateCase()
    ensures PrettyChange(Bare(Designate).(destination := Some(["123", "43", "a", "2"])))
            == Some("Moved to 123-43-a-2")
  {
    assert Join(["123", "43", "a", "2"], '-') == "123-43-a-2";
    assert "Moved to " + "123-43-a-2" == "Moved to 123-43-a-2";
  }

  lemma PrettyModifiedCase()
    ensures PrettyChange(Bare(Put).(node := Some(TextNode(None)))) == Some("Modified: Some Text")
  {
    assert "Modified" + "" + ": " + "Some Text" == "Modified: Some Text";
  }

  lemma PrettyAddedCase()
    ensures PrettyChange(Bare(Post).(node := Some(TextNode(None)))) == Some("Added: Some Text")
  {
    assert "Added" + "" + ": " + "Some Text" == "Added: Some Text";
  }

  lemma PrettyAddedTitleCase()
    ensures PrettyChange(Bare(Post).(node := Some(TextNode(Some("A Title")))))
            == Some("Added (title: A Title): Some Text")
  {
    assert TitleNote(Some("A Title")) == " (title: A Title)";
    assert "Added" + " (title: A Title)" + ": " + "Some Text" == "Added (title: A Title): Some Text";
  }

  lemma PrettyModifiedTitleCase()
    ensures PrettyChange(Bare(Put).(node := Some(TextNode(Some("A Title")))))
            == Some("Modified (title: A Title): Some Text")
  {
    assert TitleNote(Some("A Title")) == " (title: A Title)";
    assert "Modified" + " (title: A Title)" + ": " + "Some Text" == "Modified (title: A Title): Some Text";
  }

  lemma HumanizeCase()
    ensures Humanize("[a field]") == "A Field"
  {
    assert Unbracket("[a field]") == "a field";
    TitleCaseAt("a field", true);
    assert Upper('a') == 'A' && Upper('f') == 'F';
  }

  lemma PrettyTitleFieldCase()
    ensures PrettyChange(Bare(Put).(node := Some(TextNode(Some("A Title"))), field := Some("[title]")))
            == Some("Title changed to: A Title")
  {
    assert "Title changed to: " + "A Title" == "Title changed to: A Title";
  }

  /** The field line before the name is humanised. */
  lemma OtherFieldLine()
    ensures PrettyChange(Bare(Put).(node := Some(TextNode(None)), field := Some("[a field]")))
            == Some(Humanize("[a field]") + " changed to: " + "Some Text")
  {
    var c := Bare(Put).(node := Some(TextNode(None)), field := Some("[a field]"));
    assert c.field.value != "[title]" by {
      assert c.field.value[1] != "[title]"[1];
    }
    PrettyFieldText(c);
  }

  /** The same line with the humanised name written out. */
  lemma OtherFieldHumanized()
    ensures Humanize("[a field]") + " changed to: " + "Some Text" == "A Field changed to: Some Text"
  {
    HumanizeCase();
    assert "A Field" + " changed to: " + "Some Text" == "A Field changed to: Some Text";
  }

  lemma PrettyOtherFieldCase()
    ensures PrettyChange(Bare(Put).(node := Some(TextNode(None)), field := Some("[a field]")))
            == Some("A Field changed to: Some Text")
  {
    OtherFieldLine();
    OtherFieldHumanized();
  }
}

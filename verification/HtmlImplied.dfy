/** The elements that the HTML parser supplies: where every run puts them, and what a start tag and text open. */
module HtmlImplied {
  import opened XmlString
  import opened HtmlStack

  /** The elements that need no head or body around them. */
  predicate Outside(name: string) {
    name in {"html", "head", "body", "noframes", "frame", "frameset"}
  }

  /** Every other open element has a head or a body somewhere below it on the stack. */
  ghost predicate Housed(stack: seq<string>) {
    forall i :: 0 <= i < |stack| && !Outside(stack[i]) ==> exists j :: 0 <= j < i && stack[j] in {"head", "body"}
  }

  lemma PrefixHoused(stack: seq<string>, n: nat)
    requires Housed(stack) && n <= |stack|
    ensures Housed(stack[..n])
  {
    var short := stack[..n];
    forall i | 0 <= i < n && !Outside(short[i])
      ensures exists j :: 0 <= j < i && short[j] in {"head", "body"}
    {
      var j :| 0 <= j < i && stack[j] in {"head", "body"};
      assert short[j] in {"head", "body"};
    }
  }

  lemma OpenedHoused(s: State, name: string)
    requires Housed(s.stack) && (Outside(name) || "head" in s.stack || "body" in s.stack)
    ensures Housed(Opened(s, name).stack)
  {
    var stack, n := Opened(s, name).stack, |s.stack|;
    forall i | 0 <= i < |stack| && !Outside(stack[i])
      ensures exists j :: 0 <= j < i && stack[j] in {"head", "body"}
    {
      var j :| 0 <= j < n && (i < n ==> j < i) && s.stack[j] in {"head", "body"};
      assert stack[j] in {"head", "body"};
    }
  }

  /** A tag that needs a head or a body around it finds one. */
  lemma ImpliedHoused(t: Tables, s: State, tag: string)
    requires t.omitted && Housed(s.stack)
    ensures
      var stack := Implied(t, s, tag).stack;
      Housed(stack) && (!Outside(tag) ==> "head" in stack || "body" in stack)
  {
    OpenedHoused(s, "html");
    var a := if s.stack == [] then Opened(s, "html") else s;
    OpenedHoused(a, "head");
    OpenedHoused(a, "body");
  }

  lemma StartedHoused(t: Tables, s: State, tag: string)
    requires t.omitted && Housed(s.stack)
    ensures Housed(Started(t, s, tag).stack)
    ensures Housed(Opened(Implied(t, AutoClosed(t, s, tag), tag), tag).stack)
  {
    var a := AutoClosed(t, s, tag);
    AutoClosedPrefix(t, s, tag);
    PrefixHoused(s.stack, |a.stack|);
    assert a.stack == s.stack[..|a.stack|];
    ImpliedHoused(t, a, tag);
    OpenedHoused(Implied(t, a, tag), tag);
  }

  lemma AfterHoused(t: Tables, s: State, step: Step)
    requires t.omitted && Housed(s.stack)
    ensures Housed(After(t, s, step).stack)
  {
    match step
    case StartTag(tag, ending) =>
      StartedHoused(t, s, tag);
      var a := Started(t, s, tag).stack;
      if a != [] { PrefixHoused(a, |a| - 1); }
    case EndTag(tag) =>
      var k := Topmost(s.stack, tag);
      if k.Some? { PrefixHoused(s.stack, k.value); }
    case Characters =>
      StartedHoused(t, s, "p");
    case Upcoming(tag) =>
      AutoClosedPrefix(t, s, tag);
      var n := |AutoClosed(t, s, tag).stack|;
      PrefixHoused(s.stack, n);
      assert AutoClosed(t, s, tag).stack == s.stack[..n];
    case EndOfInput =>
  }

  /** In every run that supplies omitted elements, whatever the tables say, an element stands inside a head or a body,
      unless it is one of html, head, body and the frame elements. */
  lemma {:induction false} RunHoused(t: Tables, steps: seq<Step>)
    requires t.omitted
    ensures Housed(Run(t, steps).stack)
  {
    if steps != [] {
      RunHoused(t, steps[..|steps| - 1]);
      AfterHoused(t, Run(t, steps[..|steps| - 1]), steps[|steps| - 1]);
    }
  }

  // ---------------------------------------------------------------- the first start tag

  predicate ForHead(tag: string) {
    tag == "script" || tag == "style" || tag == "meta" || tag == "link" || tag == "title" || tag == "base"
  }

  predicate ForNeither(tag: string) {
    tag == "head" || tag == "body" || tag == "noframes" || tag == "frame" || tag == "frameset"
  }

  /** The elements that are supplied in front of the first start tag. */
  function FirstSupplied(tag: string): seq<string> {
    if tag == "html" then []
    else if ForHead(tag) then ["html", "head"]
    else if ForNeither(tag) then ["html"]
    else ["html", "body"]
  }

  function Starts(names: seq<string>): seq<Event> {
    seq(|names|, i requires 0 <= i < |names| => Start(names[i]))
  }

  /** What becomes of an element at the end of its start tag. */
  function LastEvents(t: Tables, name: string, ending: Ending): seq<Event> {
    if ending == Neither then [NodePop] else if ending == Slash || t.empty(name) then [End(name)] else []
  }

  /** An element stays open behind its start tag unless it is empty or unfinished. */
  lemma BegunIs(t: Tables, s: State, tag: string, ending: Ending)
    ensures
      var a := Started(t, s, tag);
      if a.stack == [] then ElementBegun(t, s, tag, ending) == a
      else
        var last := LastEvents(t, a.stack[|a.stack| - 1], ending);
        ElementBegun(t, s, tag, ending)
          == State(if last == [] then a.stack else a.stack[..|a.stack| - 1], a.events + last)
  {
    var a := Started(t, s, tag);
    assert a.events + [] == a.events;
  }

  lemma OpenedStarts(names: seq<string>, name: string)
    ensures Opened(State(names, Starts(names)), name) == State(names + [name], Starts(names + [name]))
  {
    assert Starts(names + [name]) == Starts(names) + [Start(name)];
  }

  lemma FirstImplied(t: Tables, tag: string)
    requires t.omitted
    ensures Implied(t, State([], []), tag) == State(FirstSupplied(tag), Starts(FirstSupplied(tag)))
  {
    var s := State([], []);
    assert Starts([]) == [];
    if tag != "html" {
      var a := Opened(s, "html");
      OpenedStarts([], "html");
      assert a == State(["html"], Starts(["html"]));
      OpenedStarts(["html"], "head");
      OpenedStarts(["html"], "body");
    }
  }

  lemma FirstPlaced(tag: string)
    ensures !Misplaced(FirstSupplied(tag), tag)
  {
  }

  /** The first start tag: a script, style, meta, link, title or base stands directly in head, any other element in
      body, apart from html, head, body and the frame elements. */
  lemma FirstTag(t: Tables, tag: string, ending: Ending)
    requires t.omitted
    ensures
      var names, s := FirstSupplied(tag), Run(t, [StartTag(tag, ending)]);
      var last := LastEvents(t, tag, ending);
      && s.stack == (if last == [] then names + [tag] else names)
      && s.events == Starts(names + [tag]) + last
  {
    var steps, s, names := [StartTag(tag, ending)], State([], []), FirstSupplied(tag);
    assert steps[..0] == [];
    assert AutoClosed(t, s, tag) == s;
    FirstImplied(t, tag);
    FirstPlaced(tag);
    OpenedStarts(names, tag);
    BegunIs(t, s, tag, ending);
    assert (names + [tag])[..|names|] == names;
  }

  // ---------------------------------------------------------------- any start tag

  /** What is supplied in front of a start tag where these elements are open: nothing that is there already. */
  function Supplied(stack: seq<string>, tag: string): seq<string> {
    if stack == [] then FirstSupplied(tag)
    else if stack == [stack[0]] && ForHead(tag) then ["head"]
    else if tag == "html" || ForNeither(tag) || "head" in stack || "body" in stack then []
    else ["body"]
  }

  lemma SuppliedIs(t: Tables, s: State, tag: string)
    ensures Implied(t, s, tag).stack == s.stack + if t.omitted then Supplied(s.stack, tag) else []
  {
    if t.omitted && s.stack == [] {
      FirstImplied(t, tag);
      assert Implied(t, s, tag).stack == Implied(t, State([], []), tag).stack;
    }
  }

  /** Does the start tag open its element, given what is left open behind auto-closing? html only where nothing is open,
      head only right inside html, body only once, and any other element always. */
  predicate Opens(stack: seq<string>, tag: string, omitted: bool) {
    if tag == "html" then stack == []
    else if tag == "head" then |stack| == 1 || (stack == [] && omitted)
    else if tag == "body" then "body" !in stack
    else true
  }

  /** A start tag closes what its table entry says, supplies what is missing, and opens its element. */
  lemma StartTagOpens(t: Tables, s: State, tag: string)
    ensures
      var left := AutoClosed(t, s, tag).stack;
      var supplied := left + if t.omitted then Supplied(left, tag) else [];
      Started(t, s, tag).stack == if Opens(left, tag, t.omitted) then supplied + [tag] else supplied
  {
    SuppliedIs(t, AutoClosed(t, s, tag), tag);
  }

  /** Text opens a paragraph exactly if nothing is open, or html or head is innermost and omitted elements are supplied;
      the paragraph is then innermost, and anywhere else text changes nothing. */
  lemma TextOpensParagraph(t: Tables, s: State)
    ensures
      var r := Paragraph(t, s);
      if s.stack == [] || (t.omitted && s.stack[|s.stack| - 1] in {"html", "head"})
      then Top(r.stack) == Some("p") && |r.events| > |s.events| && r.events[|r.events| - 1] == Start("p")
      else r == s
  {
    AutoClosedEvents(t, s, "p");
  }

  lemma {:induction false} AutoClosedEvents(t: Tables, s: State, tag: string)
    ensures s.events <= AutoClosed(t, s, tag).events
    decreases |s.stack|
  {
    if s.stack != [] && t.closes(tag, s.stack[|s.stack| - 1]) {
      AutoClosedEvents(t, Closed(s), tag);
    }
  }
}

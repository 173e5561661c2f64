/** The stack of open elements of the HTML parser, and the SAX events that its changes raise. */
module HtmlStack {
  import opened XmlString

  /** NodePop is the one way to leave an element without an endElement event. */
  datatype Event = Start(name: string) | End(name: string) | NodePop

  datatype State = State(stack: seq<string>, events: seq<Event>)

  /** The tables and the switch that the stack consults: which start tag closes which open element, which elements
      are declared empty, and whether omitted elements are supplied. */
  datatype Tables = Tables(closes: (string, string) -> bool, empty: string -> bool, omitted: bool)

  // ---------------------------------------------------------------- single changes

  function Opened(s: State, name: string): State {
    State(s.stack + [name], s.events + [Start(name)])
  }

  function Closed(s: State): State {
    if s.stack == [] then s
    else State(s.stack[..|s.stack| - 1], s.events + [End(s.stack[|s.stack| - 1])])
  }

  function Dropped(s: State): State {
    if s.stack == [] then s else State(s.stack[..|s.stack| - 1], s.events + [NodePop])
  }

  function Top(stack: seq<string>): Option<string> {
    if stack == [] then None else Some(stack[|stack| - 1])
  }

  /** Closes elements until only n are open. */
  function ClosedTo(s: State, n: nat): (r: State)
    requires n <= |s.stack|
    ensures r.stack == s.stack[..n]
    decreases |s.stack|
  {
    if |s.stack| == n then s else ClosedTo(Closed(s), n)
  }

  // ---------------------------------------------------------------- priorities

  /** The priority table of end tags; other elements have the default. */
  const END_PRIORITY: seq<(string, nat)> := [
    ("div", 150), ("td", 160), ("th", 160), ("tr", 170), ("thead", 180), ("tbody", 180), ("tfoot", 180),
    ("table", 190), ("head", 200), ("body", 200), ("html", 220)]

  const DEFAULT_PRIORITY := 100

  function PriorityFrom(name: string, i: nat): nat
    requires i <= |END_PRIORITY|
    decreases |END_PRIORITY| - i
  {
    if i == |END_PRIORITY| then DEFAULT_PRIORITY
    else if END_PRIORITY[i].0 == name then END_PRIORITY[i].1
    else PriorityFrom(name, i + 1)
  }

  function Priority(name: string): nat {
    PriorityFrom(name, 0)
  }

  // ---------------------------------------------------------------- what the operations do

  /** A start tag closes the elements on top that its table entry lists. */
  function AutoClosed(t: Tables, s: State, tag: string): State
    decreases |s.stack|
  {
    if s.stack != [] && t.closes(tag, s.stack[|s.stack| - 1]) then AutoClosed(t, Closed(s), tag) else s
  }

  predicate HeadContent(tag: string) {
    tag == "script" || tag == "style" || tag == "meta" || tag == "link" || tag == "title" || tag == "base"
  }

  predicate FrameContent(tag: string) {
    tag == "noframes" || tag == "frame" || tag == "frameset"
  }

  /** Supplies the html, head and body elements that a start tag implies. */
  function Implied(t: Tables, s: State, tag: string): State {
    if !t.omitted || tag == "html" then s
    else
      var a := if s.stack == [] then Opened(s, "html") else s;
      if tag == "body" || tag == "head" then a
      else if |a.stack| <= 1 && HeadContent(tag) then Opened(a, "head")
      else if FrameContent(tag) || "body" in a.stack || "head" in a.stack then a
      else Opened(a, "body")
  }

  /** Start tags that are refused where they stand. */
  predicate Misplaced(stack: seq<string>, tag: string) {
    || (tag == "html" && stack != [])
    || (tag == "head" && |stack| != 1)
    || (tag == "body" && "body" in stack)
  }

  function Started(t: Tables, s: State, tag: string): State {
    var a := Implied(t, AutoClosed(t, s, tag), tag);
    if Misplaced(a.stack, tag) then a else Opened(a, tag)
  }

  predicate NoContent(tag: string) {
    tag == "html" || tag == "head"
  }

  /** Before text: a paragraph is opened where none of the open elements may hold characters. */
  function Paragraph(t: Tables, s: State): State {
    if s.stack == [] || (t.omitted && NoContent(s.stack[|s.stack| - 1]))
    then Opened(Implied(t, AutoClosed(t, s, "p"), "p"), "p")
    else s
  }

  /** The position of the topmost open element of the name. */
  function Topmost(stack: seq<string>, name: string): (r: Option<nat>)
    ensures r.Some? ==> r.value < |stack| && stack[r.value] == name
    ensures forall i :: (if r.Some? then r.value + 1 else 0) <= i < |stack| ==> stack[i] != name
  {
    if stack == [] then None
    else if stack[|stack| - 1] == name then Some(|stack| - 1)
    else Topmost(stack[..|stack| - 1], name)
  }

  /** No element from position k on has a higher end priority than the tag. */
  predicate MayClose(stack: seq<string>, k: nat, name: string) {
    forall i :: k <= i < |stack| ==> Priority(stack[i]) <= Priority(name)
  }

  /** An end tag closes through the topmost element of its name, unless a higher priority stands above that. */
  function Ended(s: State, name: string): State {
    var k := Topmost(s.stack, name);
    if k.Some? && MayClose(s.stack, k.value, name) then ClosedTo(s, k.value) else s
  }

  /** How the text of a start tag goes on after its attributes. */
  datatype Ending = Slash | Gt | Neither

  /** An element up to its content: an empty one is closed at once, an unfinished tag drops its node. */
  function ElementBegun(t: Tables, s: State, tag: string, ending: Ending): State {
    var a := Started(t, s, tag);
    if a.stack == [] then a
    else match ending
      case Slash => Closed(a)
      case Neither => Dropped(a)
      case Gt => if t.empty(a.stack[|a.stack| - 1]) then Closed(a) else a
  }

  // ---------------------------------------------------------------- runs

  /** What the content of a document makes the parser do to the stack. */
  datatype Step =
    | StartTag(tag: string, ending: Ending)
    | EndTag(tag: string)
    | Characters
    | Upcoming(tag: string)  // a start tag ahead first closes what it can
    | EndOfInput

  function After(t: Tables, s: State, step: Step): State {
    match step
    case StartTag(tag, ending) => ElementBegun(t, s, tag, ending)
    case EndTag(tag) => Ended(s, tag)
    case Characters => Paragraph(t, s)
    case Upcoming(tag) => AutoClosed(t, s, tag)
    case EndOfInput => ClosedTo(s, 0)
  }

  function Run(t: Tables, steps: seq<Step>): State {
    if steps == [] then State([], [])
    else After(t, Run(t, steps[..|steps| - 1]), steps[|steps| - 1])
  }

  // ---------------------------------------------------------------- structure of every reachable stack

  /** html is at the bottom and only there, head only right above it, body at most once. */
  ghost predicate WellPlaced(stack: seq<string>) {
    && (stack != [] ==> stack[0] == "html")
    && (forall i :: 0 <= i < |stack| && stack[i] == "html" ==> i == 0)
    && (forall i :: 0 <= i < |stack| && stack[i] == "head" ==> i == 1)
    && (forall i, j :: 0 <= i < j < |stack| ==> !(stack[i] == "body" && stack[j] == "body"))
  }

  /** One is an initial part of the other. */
  lemma PrefixWellPlaced(stack: seq<string>, n: nat)
    requires WellPlaced(stack) && n <= |stack|
    ensures WellPlaced(stack[..n])
  {
  }

  /** Auto-closing closes from the top exactly as far as the table goes on saying so. */
  lemma {:induction false} AutoClosedPrefix(t: Tables, s: State, tag: string)
    ensures AutoClosed(t, s, tag).stack <= s.stack
    ensures
      var r := AutoClosed(t, s, tag).stack;
      && (r != [] ==> !t.closes(tag, r[|r| - 1]))
      && forall i :: |r| <= i < |s.stack| ==> t.closes(tag, s.stack[i])
    decreases |s.stack|
  {
    if s.stack != [] && t.closes(tag, s.stack[|s.stack| - 1]) {
      AutoClosedPrefix(t, Closed(s), tag);
    }
  }

  lemma ImpliedWellPlaced(t: Tables, s: State, tag: string)
    requires t.omitted && WellPlaced(s.stack)
    ensures WellPlaced(Implied(t, s, tag).stack)
    ensures tag != "html" ==> Implied(t, s, tag).stack != []
  {
  }

  lemma OpenedWellPlaced(s: State, tag: string)
    requires WellPlaced(s.stack) && !Misplaced(s.stack, tag) && (s.stack == [] ==> tag == "html")
    ensures WellPlaced(Opened(s, tag).stack)
  {
  }

  lemma StartedWellPlaced(t: Tables, s: State, tag: string)
    requires t.omitted && WellPlaced(s.stack)
    ensures WellPlaced(Started(t, s, tag).stack)
    ensures Started(t, s, tag).stack != []
  {
    var a := AutoClosed(t, s, tag);
    AutoClosedPrefix(t, s, tag);
    PrefixWellPlaced(s.stack, |a.stack|);
    assert a.stack == s.stack[..|a.stack|];
    var b := Implied(t, a, tag);
    ImpliedWellPlaced(t, a, tag);
    if !Misplaced(b.stack, tag) {
      OpenedWellPlaced(b, tag);
    }
  }

  lemma ParagraphWellPlaced(t: Tables, s: State)
    requires t.omitted && WellPlaced(s.stack)
    ensures WellPlaced(Paragraph(t, s).stack)
    ensures
      var stack := Paragraph(t, s).stack;
      stack != [] && !NoContent(stack[|stack| - 1])
  {
    var a := AutoClosed(t, s, "p");
    AutoClosedPrefix(t, s, "p");
    PrefixWellPlaced(s.stack, |a.stack|);
    assert a.stack == s.stack[..|a.stack|];
    ImpliedWellPlaced(t, a, "p");
    OpenedWellPlaced(Implied(t, a, "p"), "p");
  }

  lemma AfterWellPlaced(t: Tables, s: State, step: Step)
    requires t.omitted && WellPlaced(s.stack)
    ensures WellPlaced(After(t, s, step).stack)
  {
    match step
    case StartTag(tag, ending) =>
      StartedWellPlaced(t, s, tag);
      var a := Started(t, s, tag);
      PrefixWellPlaced(a.stack, |a.stack| - 1);
    case EndTag(tag) =>
    case Characters =>
      ParagraphWellPlaced(t, s);
    case Upcoming(tag) =>
      AutoClosedPrefix(t, s, tag);
      PrefixWellPlaced(s.stack, |AutoClosed(t, s, tag).stack|);
      assert AutoClosed(t, s, tag).stack == s.stack[..|AutoClosed(t, s, tag).stack|];
    case EndOfInput =>
  }

  /** Every run that supplies omitted elements keeps the structure, whatever the tables say. */
  lemma {:induction false} RunWellPlaced(t: Tables, steps: seq<Step>)
    requires t.omitted
    ensures WellPlaced(Run(t, steps).stack)
  {
    if steps != [] {
      RunWellPlaced(t, steps[..|steps| - 1]);
      AfterWellPlaced(t, Run(t, steps[..|steps| - 1]), steps[|steps| - 1]);
    }
  }

  /** Without supplied elements it fails at the first start tag. */
  lemma OmittedNeeded(t: Tables)
    requires !t.omitted && !t.empty("p")
    ensures !WellPlaced(Run(t, [StartTag("p", Gt)]).stack)
  {
    var steps := [StartTag("p", Gt)];
    assert steps[..0] == [];
    assert Run(t, steps).stack == ["p"];
  }

  // ---------------------------------------------------------------- end tags

  /** An end tag leaves the stack alone, or cuts it just below the topmost element of its name; the cut happens
      exactly when there is one and nothing above it has a higher priority, so nothing of higher priority goes. */
  lemma EndTagCuts(s: State, name: string)
    ensures
      var after := Ended(s, name).stack;
      || after == s.stack
      || exists k :: 0 <= k < |s.stack| && s.stack[k] == name && after == s.stack[..k] && MayClose(s.stack, k, name)
           && forall i :: k < i < |s.stack| ==> s.stack[i] != name
    ensures Ended(s, name).stack != s.stack <==>
      exists k :: 0 <= k < |s.stack| && s.stack[k] == name && MayClose(s.stack, k, name)
  {
    var k := Topmost(s.stack, name);
    if k.Some? && MayClose(s.stack, k.value, name) {
      assert Ended(s, name).stack == s.stack[..k.value];
    } else {
      forall j | 0 <= j < |s.stack| && s.stack[j] == name
        ensures !MayClose(s.stack, j, name)
      {
        assert k.Some? && j <= k.value;
      }
    }
  }

  // ---------------------------------------------------------------- events

  /** The elements open after the events, if every end event names the element opened last. */
  function Replay(events: seq<Event>): Option<seq<string>> {
    if events == [] then Some([])
    else
      var r := Replay(events[..|events| - 1]);
      if r.None? then None
      else match events[|events| - 1]
        case Start(name) => Some(r.value + [name])
        case End(name) => if Top(r.value) == Some(name) then Some(r.value[..|r.value| - 1]) else None
        case NodePop => if r.value == [] then None else Some(r.value[..|r.value| - 1])
  }

  /** The events so far account for the open elements. */
  ghost predicate Faithful(s: State) {
    Replay(s.events) == Some(s.stack)
  }

  lemma OpenedFaithful(s: State, name: string)
    requires Faithful(s)
    ensures Faithful(Opened(s, name))
  {
    assert (s.events + [Start(name)])[..|s.events|] == s.events;
  }

  lemma PoppedFaithful(s: State)
    requires Faithful(s)
    ensures Faithful(Closed(s)) && Faithful(Dropped(s))
  {
    if s.stack != [] {
      assert Closed(s).events[..|s.events|] == s.events;
      assert Dropped(s).events[..|s.events|] == s.events;
    }
  }

  lemma {:induction false} ClosedToFaithful(s: State, n: nat)
    requires Faithful(s) && n <= |s.stack|
    ensures Faithful(ClosedTo(s, n))
    decreases |s.stack|
  {
    if |s.stack| != n {
      PoppedFaithful(s);
      ClosedToFaithful(Closed(s), n);
    }
  }

  lemma {:induction false} AutoClosedFaithful(t: Tables, s: State, tag: string)
    requires Faithful(s)
    ensures Faithful(AutoClosed(t, s, tag))
    decreases |s.stack|
  {
    if s.stack != [] && t.closes(tag, s.stack[|s.stack| - 1]) {
      PoppedFaithful(s);
      AutoClosedFaithful(t, Closed(s), tag);
    }
  }

  lemma ImpliedFaithful(t: Tables, s: State, tag: string)
    requires Faithful(s)
    ensures Faithful(Implied(t, s, tag))
  {
    OpenedFaithful(s, "html");
    var a := if s.stack == [] then Opened(s, "html") else s;
    OpenedFaithful(a, "head");
    OpenedFaithful(a, "body");
  }

  lemma AfterFaithful(t: Tables, s: State, step: Step)
    requires Faithful(s)
    ensures Faithful(After(t, s, step))
  {
    match step
    case StartTag(tag, ending) =>
      AutoClosedFaithful(t, s, tag);
      var a := Implied(t, AutoClosed(t, s, tag), tag);
      ImpliedFaithful(t, AutoClosed(t, s, tag), tag);
      OpenedFaithful(a, tag);
      PoppedFaithful(Started(t, s, tag));
    case EndTag(tag) =>
      var k := Topmost(s.stack, tag);
      if k.Some? {
        ClosedToFaithful(s, k.value);
      }
    case Characters =>
      AutoClosedFaithful(t, s, "p");
      ImpliedFaithful(t, AutoClosed(t, s, "p"), "p");
      OpenedFaithful(Implied(t, AutoClosed(t, s, "p"), "p"), "p");
    case Upcoming(tag) =>
      AutoClosedFaithful(t, s, tag);
    case EndOfInput =>
      ClosedToFaithful(s, 0);
  }

  /** In every run each end event closes the element opened last, and the events leave open just what is on the
      stack; once the input has ended, nothing. */
  lemma {:induction false} RunFaithful(t: Tables, steps: seq<Step>)
    ensures Faithful(Run(t, steps))
    ensures steps != [] && steps[|steps| - 1] == EndOfInput ==> Replay(Run(t, steps).events) == Some([])
  {
    if steps != [] {
      RunFaithful(t, steps[..|steps| - 1]);
      AfterFaithful(t, Run(t, steps[..|steps| - 1]), steps[|steps| - 1]);
    }
  }
}

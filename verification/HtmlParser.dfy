/** The HTML parser's context: the name stack in its growing array, and the operations that change it. */
module HtmlParser {
  import opened XmlString
  import opened HtmlClose
  import opened HtmlStack
  import opened HtmlImplied

  /** The elements from position i on have another name and no higher priority. */
  ghost predicate Passed(stack: seq<string>, i: nat, name: string) {
    forall j :: i <= j < |stack| ==> stack[j] != name && Priority(stack[j]) <= Priority(name)
  }

  /** The element below them either is the one to close, or has a higher priority and forbids it. */
  lemma PassedTo(stack: seq<string>, i: nat, name: string)
    requires i < |stack| && Passed(stack, i + 1, name)
    ensures stack[i] == name ==> Topmost(stack, name) == Some(i) && MayClose(stack, i, name)
    ensures stack[i] != name && Priority(stack[i]) > Priority(name) ==>
              (Topmost(stack, name).Some? ==> !MayClose(stack, Topmost(stack, name).value, name))
  {
  }

  /** The tables that a run consults, from the rows of what start tags close. */
  function TablesOf(rows: seq<Row>, empty: string -> bool, omitted: bool): Tables {
    Tables((a, b) => RowCloses(Indexed(rows), a, b), empty, omitted)
  }

  class Context {
    var nameTab: array<Option<string>>
    var nameNr: nat
    var nameMax: nat
    var name: Option<string>
    var events: seq<Event>
    ghost var stack: seq<string>
    const tables: Tables
    ghost const rows: seq<Row>
    const startClose: seq<Option<string>>
    const startCloseIndex: seq<Option<nat>>

    ghost predicate Valid()
      reads this, nameTab
    {
      && nameTab.Length == nameMax > 0
      && nameNr == |stack| <= nameMax
      && (forall i :: 0 <= i < nameNr ==> nameTab[i] == Some(stack[i]))
      && name == Top(stack)
      && TableOk()
    }

    /** The flattened table and its index say which start tag closes which open element. */
    ghost predicate TableOk() {
      && startClose == Flat(rows) && IndexOk(rows, startCloseIndex)
      && forall a, b :: tables.closes(a, b) == RowCloses(Indexed(rows), a, b)
    }

    ghost function Now(): State
      reads this
    {
      State(stack, events)
    }

    /** The table of what start tags close is scanned once for its index. */
    constructor (rows: seq<Row>, empty: string -> bool, omitted: bool)
      ensures Valid() && fresh(nameTab)
      ensures this.rows == rows && tables == TablesOf(rows, empty, omitted)
      ensures Now() == State([], [])
    {
      var index := InitAutoClose(rows, Flat(rows));
      nameTab := new Option<string>[10];
      nameNr := 0;
      nameMax := 10;
      name := None;
      events := [];
      stack := [];
      this.rows := rows;
      tables := TablesOf(rows, empty, omitted);
      startClose := Flat(rows);
      startCloseIndex := index;
    }

    /** htmlnamePush: the array doubles when it is full. */
    method NamePush(value: string)
      requires Valid()
      modifies this, nameTab
      ensures Valid() && (nameTab == old(nameTab) || fresh(nameTab))
      ensures stack == old(stack) + [value] && events == old(events)
    {
      if nameNr >= nameMax {
        nameMax := nameMax * 2;
        var grown := new Option<string>[nameMax];
        var i := 0;
        while i < nameNr
          modifies grown
          invariant 0 <= i <= nameNr
          invariant forall k :: 0 <= k < i ==> grown[k] == Some(stack[k])
        {
          grown[i] := nameTab[i];
          i := i + 1;
        }
        nameTab := grown;
      }
      nameTab[nameNr] := Some(value);
      name := Some(value);
      nameNr := nameNr + 1;
      stack := stack + [value];
    }

    /** htmlnamePop. */
    method NamePop() returns (ret: Option<string>)
      requires Valid()
      modifies this, nameTab
      ensures Valid() && nameTab == old(nameTab)
      ensures stack == if old(stack) == [] then [] else old(stack)[..|old(stack)| - 1]
      ensures events == old(events) && ret == Top(old(stack))
    {
      if nameNr <= 0 {
        return None;
      }
      nameNr := nameNr - 1;
      name := if nameNr > 0 then nameTab[nameNr - 1] else None;
      ret := nameTab[nameNr];
      nameTab[nameNr] := None;
      stack := stack[..nameNr];
    }

    /** Pushes a name and reports the element's start. */
    method Open(value: string)
      requires Valid()
      modifies this, nameTab
      ensures Valid() && (nameTab == old(nameTab) || fresh(nameTab))
      ensures Now() == Opened(old(Now()), value)
    {
      NamePush(value);
      events := events + [Start(value)];
    }

    /** Reports the end of the element on top and pops it. */
    method Close()
      requires Valid() && name.Some?
      modifies this, nameTab
      ensures Valid() && nameTab == old(nameTab)
      ensures Now() == Closed(old(Now()))
    {
      events := events + [End(name.value)];
      var _ := NamePop();
    }

    /** htmlGetEndPriority. */
    static method GetEndPriority(name: string) returns (r: nat)
      ensures r == Priority(name)
    {
      var i := 0;
      while i < |END_PRIORITY| && END_PRIORITY[i].0 != name
        invariant 0 <= i <= |END_PRIORITY|
        invariant PriorityFrom(name, i) == Priority(name)
      {
        i := i + 1;
      }
      r := if i < |END_PRIORITY| then END_PRIORITY[i].1 else DEFAULT_PRIORITY;
    }

    /** htmlAutoCloseOnEnd. */
    method AutoCloseOnEnd()
      requires Valid()
      modifies this, nameTab
      ensures Valid() && nameTab == old(nameTab)
      ensures Now() == ClosedTo(old(Now()), 0)
    {
      while nameNr > 0
        invariant Valid() && nameTab == old(nameTab)
        invariant ClosedTo(Now(), 0) == ClosedTo(old(Now()), 0)
        decreases nameNr
      {
        Close();
      }
    }

    /** htmlAutoClose. */
    method AutoClose(newtag: string)
      requires Valid()
      modifies this, nameTab
      ensures Valid() && nameTab == old(nameTab)
      ensures Now() == AutoClosed(tables, old(Now()), newtag)
    {
      while name.Some?
        invariant Valid() && nameTab == old(nameTab)
        invariant AutoClosed(tables, Now(), newtag) == AutoClosed(tables, old(Now()), newtag)
        decreases nameNr
      {
        var closes := CheckAutoClose(rows, startClose, startCloseIndex, newtag, name.value);
        if !closes {
          return;
        }
        Close();
      }
    }

    /** Where the topmost element of the name stands, unless a higher priority is met first. */
    method FindClosable(newtag: string) returns (r: Option<nat>)
      requires Valid()
      ensures
        var k := Topmost(stack, newtag);
        r == if k.Some? && MayClose(stack, k.value, newtag) then k else None
    {
      var priority := GetEndPriority(newtag);
      var i := nameNr;
      while i > 0
        invariant 0 <= i <= nameNr && Passed(stack, i, newtag)
        decreases i
      {
        i := i - 1;
        assert nameTab[i] == Some(stack[i]);
        if nameTab[i] == Some(newtag) {
          PassedTo(stack, i, newtag);
          return Some(i);
        }
        var other := GetEndPriority(nameTab[i].value);
        if other > priority {
          PassedTo(stack, i, newtag);
          return None;
        }
      }
      r := None;
    }

    /** htmlAutoCloseOnClose: closes what stands above the element that an end tag means. */
    method AutoCloseOnClose(newtag: string)
      requires Valid()
      modifies this, nameTab
      ensures Valid() && nameTab == old(nameTab)
      ensures
        var k := Topmost(old(stack), newtag);
        Now() == if k.Some? && MayClose(old(stack), k.value, newtag) then ClosedTo(old(Now()), k.value + 1)
                 else old(Now())
    {
      var i := FindClosable(newtag);
      if i.None? {
        return;
      }
      CloseAbove(newtag, i.value);
    }

    /** Closes the elements on top until the one at k is. */
    method CloseAbove(newtag: string, ghost k: nat)
      requires Valid() && Topmost(stack, newtag) == Some(k)
      modifies this, nameTab
      ensures Valid() && nameTab == old(nameTab)
      ensures Now() == ClosedTo(old(Now()), k + 1)
    {
      ghost var was := Now();
      while name != Some(newtag)
        invariant Valid() && nameTab == old(nameTab)
        invariant k < |stack| && stack <= was.stack
        invariant ClosedTo(Now(), k + 1) == ClosedTo(was, k + 1)
        decreases nameNr
      {
        Close();
      }
      assert |stack| - 1 == k;
    }

    /** htmlCheckImplied. */
    method CheckImplied(newtag: string)
      requires Valid()
      modifies this, nameTab
      ensures Valid() && (nameTab == old(nameTab) || fresh(nameTab))
      ensures Now() == Implied(tables, old(Now()), newtag)
    {
      if !tables.omitted || newtag == "html" {
        return;
      }
      if nameNr <= 0 {
        Open("html");
      }
      if newtag == "body" || newtag == "head" {
        return;
      }
      if nameNr <= 1 && HeadContent(newtag) {
        Open("head");
      } else if !FrameContent(newtag) {
        var body := Has("body");
        var head := Has("head");
        if !body && !head {
          Open("body");
        }
      }
    }

    /** Is an element of the name open? */
    method Has(tag: string) returns (r: bool)
      requires Valid()
      ensures r <==> tag in stack
    {
      for i := 0 to nameNr
        invariant tag !in stack[..i]
      {
        if nameTab[i] == Some(tag) {
          return true;
        }
      }
      r := false;
      assert stack[..nameNr] == stack;
    }

    /** htmlCheckParagraph. */
    method CheckParagraph() returns (r: int)
      requires Valid()
      modifies this, nameTab
      ensures Valid() && (nameTab == old(nameTab) || fresh(nameTab))
      ensures Now() == Paragraph(tables, old(Now()))
      ensures r == if old(stack) == [] || (tables.omitted && NoContent(old(stack)[|old(stack)| - 1])) then 1 else 0
    {
      if name.None? {
        AutoClose("p");
        CheckImplied("p");
        Open("p");
        return 1;
      }
      if !tables.omitted {
        return 0;
      }
      if NoContent(name.value) {
        AutoClose("p");
        CheckImplied("p");
        Open("p");
        return 1;
      }
      r := 0;
    }

    /** The stack part of htmlParseStartTag. */
    method ParseStartTag(tag: string)
      requires Valid()
      modifies this, nameTab
      ensures Valid() && (nameTab == old(nameTab) || fresh(nameTab))
      ensures Now() == Started(tables, old(Now()), tag)
    {
      AutoClose(tag);
      CheckImplied(tag);
      if nameNr > 0 && tag == "html" {
        return;
      }
      if nameNr != 1 && tag == "head" {
        return;
      }
      if tag == "body" {
        var body := Has("body");
        if body {
          return;
        }
      }
      Open(tag);
    }

    /** The stack part of htmlParseEndTag; the result tells whether the element on top was closed. */
    method ParseEndTag(tag: string) returns (ret: int)
      requires Valid()
      modifies this, nameTab
      ensures Valid() && nameTab == old(nameTab)
      ensures Now() == Ended(old(Now()), tag)
      ensures ret == if stack != old(stack) then 1 else 0
    {
      var open := Has(tag);
      if !open {
        return 0;
      }
      AutoCloseOnClose(tag);
      ClosedToLast(old(Now()), tag);
      if name == Some(tag) {
        Close();
        ret := 1;
      } else {
        ret := 0;
      }
    }

    /** The stack part of htmlParseElement before the element's content. */
    method ParseElement(tag: string, ending: Ending)
      requires Valid()
      modifies this, nameTab
      ensures Valid() && (nameTab == old(nameTab) || fresh(nameTab))
      ensures Now() == ElementBegun(tables, old(Now()), tag, ending)
    {
      ParseStartTag(tag);
      if name.None? {
        return;
      }
      match ending
      case Slash =>
        Close();
      case Neither =>
        events := events + [NodePop];
        var _ := NamePop();
      case Gt =>
        if tables.empty(name.value) {
          Close();
        }
    }

    /** What one step of the parser does to the stack and the events. */
    method Take(step: Step)
      requires Valid()
      modifies this, nameTab
      ensures Valid() && (nameTab == old(nameTab) || fresh(nameTab))
      ensures Now() == After(tables, old(Now()), step)
    {
      match step
      case StartTag(tag, ending) =>
        ParseElement(tag, ending);
      case EndTag(tag) =>
        var _ := ParseEndTag(tag);
      case Characters =>
        var _ := CheckParagraph();
      case Upcoming(tag) =>
        AutoClose(tag);
      case EndOfInput =>
        AutoCloseOnEnd();
    }

    /** The steps of a run, one after the other. */
    method TakeAll(steps: seq<Step>)
      requires Valid() && Now() == State([], [])
      modifies this, nameTab
      ensures Valid() && Now() == Run(tables, steps)
    {
      for i := 0 to |steps|
        invariant Valid() && (nameTab == old(nameTab) || fresh(nameTab))
        invariant Now() == Run(tables, steps[..i])
      {
        assert steps[..i + 1][..i] == steps[..i];
        Take(steps[i]);
      }
      assert steps[..|steps|] == steps;
    }

    /** The names on the stack. */
    method Names() returns (names: seq<string>)
      requires Valid()
      ensures names == stack
    {
      names := [];
      for i := 0 to nameNr
        invariant names == stack[..i]
      {
        names := names + [nameTab[i].value];
      }
    }
  }

  /** Closing down to below an element is closing down to it, and then it. */
  lemma {:induction false} ClosedToNext(s: State, n: nat)
    requires n < |s.stack|
    ensures ClosedTo(s, n) == Closed(ClosedTo(s, n + 1))
    decreases |s.stack|
  {
    if |s.stack| != n + 1 {
      ClosedToNext(Closed(s), n);
    }
  }

  /** Nothing stands above the element on top. */
  lemma TopMayClose(stack: seq<string>)
    requires stack != []
    ensures MayClose(stack, |stack| - 1, stack[|stack| - 1])
  {
  }

  /** If an end tag is ignored although its element is open, another element is on top. */
  lemma ClosedToLast(s: State, tag: string)
    requires tag in s.stack
    ensures
      var k := Topmost(s.stack, tag);
      && k.Some?
      && ClosedTo(s, k.value) == Closed(ClosedTo(s, k.value + 1))
      && (!MayClose(s.stack, k.value, tag) ==> Top(s.stack) != Some(tag))
  {
    var k := Topmost(s.stack, tag);
    ClosedToNext(s, k.value);
    TopMayClose(s.stack);
    assert Top(s.stack) == Some(tag) ==> k.value == |s.stack| - 1;
  }

  /** A whole run of the parser's stack operations: html stays at the bottom, head right above it and body single,
      other elements inside one of these two, and every end event closes the element opened last. */
  method ParseContent(rows: seq<Row>, empty: string -> bool, omitted: bool, steps: seq<Step>)
      returns (stack: seq<string>, events: seq<Event>)
    ensures omitted ==> WellPlaced(stack) && Housed(stack)
    ensures Faithful(State(stack, events))
    ensures steps != [] && steps[|steps| - 1] == EndOfInput ==> Replay(events) == Some([])
    ensures State(stack, events) == Run(TablesOf(rows, empty, omitted), steps)
  {
    var context := new Context(rows, empty, omitted);
    context.TakeAll(steps);
    ghost var t := context.tables;
    if omitted {
      RunWellPlaced(t, steps);
      RunHoused(t, steps);
    }
    RunFaithful(t, steps);
    stack := context.Names();
    events := context.events;
  }
}

/** Which preference an entry of a catalog file gets, told by the attributes of the groups around it, and what of it is
    written back. */
module CatalogPrefer {
  import opened XmlString
  import opened CatalogSpec
  import opened CatalogGroups

  /** An element inside groups with these prefer attributes, outermost first. */
  function Nested(attrs: seq<Option<string>>, e: Element): Element {
    if attrs == [] then e else GroupElement(attrs[0], None, None, [Nested(attrs[1..], e)])
  }

  predicate Valid(attr: Option<string>) {
    attr == Some("public") || attr == Some("system")
  }

  /** What the attributes say, from the innermost one outwards; an invalid one says nothing. */
  function Decided(attrs: seq<Option<string>>, outer: Prefer): Prefer {
    if attrs == [] then outer
    else
      var last := attrs[|attrs| - 1];
      if last == Some("public") then PreferPublic
      else if last == Some("system") then PreferSystem
      else Decided(attrs[..|attrs| - 1], outer)
  }

  /** The preference is the same when it is handed down from the outermost group inwards. */
  lemma {:induction false} DecidedBehind(attrs: seq<Option<string>>, outer: Prefer)
    requires attrs != []
    ensures Decided(attrs, outer) == Decided(attrs[1..], Inherited(outer, attrs[0]))
    decreases |attrs|
  {
    if |attrs| > 1 {
      var front := attrs[..|attrs| - 1];
      DecidedBehind(front, outer);
      assert attrs[1..][..|attrs| - 2] == front[1..];
    } else {
      assert attrs[..0] == [] && attrs[1..] == [];
    }
  }

  lemma GroupOfOne(
      build: Builder, attr: Option<string>, e: Element, prefer: Prefer, group: Option<nat>, bases: seq<string>, at: nat)
    ensures FlatNode(build, GroupElement(attr, None, None, [e]), prefer, group, bases, at)
         == [NewEntry(Group, None, None, None, Noted(prefer, attr), group)]
            + FlatNode(build, e, Inherited(prefer, attr), Some(at), bases, at + 1)
  {
    var es := [e];
    var none := FlatList(build, es, 0, Inherited(prefer, attr), Some(at), bases, at + 1);
    assert FlatList(build, es, 1, Inherited(prefer, attr), Some(at), bases, at + 1)
        == none + FlatNode(build, es[0], Inherited(prefer, attr), Some(at), bases, at + 1 + |none|);
  }

  /** The entry comes behind its groups, with the preference that their attributes say, as a member of the innermost. */
  ghost predicate Placed(
      flat: seq<Entry>, attrs: seq<Option<string>>, kind: Kind, prefer: Prefer, group: Option<nat>, at: nat)
  {
    && |flat| == |attrs| + 1 && flat[|attrs|].kind == kind && flat[|attrs|].prefer == Decided(attrs, prefer)
    && flat[|attrs|].group == if attrs == [] then group else Some(at + |attrs| - 1)
  }

  lemma PlacedBehind(
      g: Entry, inner: seq<Entry>, attrs: seq<Option<string>>, kind: Kind, prefer: Prefer, group: Option<nat>, at: nat)
    requires attrs != []
    requires Placed(inner, attrs[1..], kind, Inherited(prefer, attrs[0]), Some(at), at + 1)
    ensures Placed([g] + inner, attrs, kind, prefer, group, at)
  {
    DecidedBehind(attrs, prefer);
  }

  lemma EntryAlone(
      build: Builder, e: Element, prefer: Prefer, group: Option<nat>, bases: seq<string>, at: nat)
    requires CatalogGroups.Loads(build, e, bases)
    ensures Placed(FlatNode(build, e, prefer, group, bases, at), [], e.kind, prefer, group, at)
  {
  }

  /** An entry has the preference of the innermost group around it that gives a valid one, and else that of the file. */
  lemma {:induction false} NestedPrefer(
      build: Builder, attrs: seq<Option<string>>, e: Element, prefer: Prefer, group: Option<nat>, bases: seq<string>,
      at: nat)
    requires CatalogGroups.Loads(build, e, bases)
    ensures Placed(FlatNode(build, Nested(attrs, e), prefer, group, bases, at), attrs, e.kind, prefer, group, at)
    decreases |attrs|
  {
    if attrs == [] {
      EntryAlone(build, e, prefer, group, bases, at);
    } else {
      var rest := Nested(attrs[1..], e);
      NestedPrefer(build, attrs[1..], e, Inherited(prefer, attrs[0]), Some(at), bases, at + 1);
      GroupOfOne(build, attrs[0], rest, prefer, group, bases, at);
      PlacedBehind(NewEntry(Group, None, None, None, Noted(prefer, attrs[0]), group),
                   FlatNode(build, rest, Inherited(prefer, attrs[0]), Some(at), bases, at + 1),
                   attrs, e.kind, prefer, group, at);
    }
  }

  /** A valid prefer attribute of a group is written back as it was, and none where there was none. */
  lemma PreferWritten(
      build: Builder, attr: Option<string>, id: Option<string>, base: Option<string>, children: seq<Element>,
      prefer: Prefer, bases: seq<string>)
    requires attr.None? || Valid(attr)
    ensures
      var written := CanonNode(build, GroupElement(attr, id, base, children), prefer, bases);
      |written| == 1 && written[0].GroupElement? && written[0].prefer == attr
  {
  }
}

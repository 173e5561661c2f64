/** Catalog files: the nested groups of a file are flattened into one list with back references on load, and
    rebuilt from it on dump. */
module CatalogGroups {
  import opened XmlString
  import opened CatalogIds
  import opened CatalogSpec

  /** A node of a catalog file. `name` and `value` are the two attributes that the entry's type requires. */
  datatype Element =
    | GroupElement(prefer: Option<string>, id: Option<string>, base: Option<string>, children: seq<Element>)
    | EntryElement(kind: Kind, name: Option<string>, value: Option<string>, base: Option<string>)
    | OtherElement

  /** xmlBuildURI on a value and the xml:base attributes in force, outermost first. */
  type Builder = (string, seq<string>) -> Option<string>

  predicate NormalisedKind(kind: Kind) {
    kind == Public || kind == DelegatePublic
  }

  /** xmlNewCatalogEntry: public names are normalised, and dropped when nothing is left of them. */
  function NewEntry(
      kind: Kind, name: Option<string>, value: Option<string>, url: Option<string>, prefer: Prefer,
      group: Option<nat>): Entry
  {
    Entry(kind, if NormalisedKind(kind) then NormalId(name) else name, value,
          if url.None? then value else url, prefer, group)
  }

  /** The preference in force inside a group: an invalid attribute is as good as none. */
  function Inherited(outer: Prefer, attr: Option<string>): Prefer {
    if attr == Some("system") then PreferSystem
    else if attr == Some("public") then PreferPublic
    else outer
  }

  /** The preference noted with a group that has the attribute. */
  function Noted(outer: Prefer, attr: Option<string>): Prefer {
    if attr.None? then NoPrefer else Inherited(outer, attr)
  }

  function Bases(bases: seq<string>, base: Option<string>): seq<string> {
    if base.None? then bases else bases + [base.value]
  }

  /** Types that come from entry elements; next catalogs are the ones without a name attribute. */
  predicate EntryKind(kind: Kind) {
    kind != CatalogSpec.Catalog && kind != Group
  }

  function NameAttr(e: Element): Option<string>
    requires e.EntryElement?
  {
    if e.kind == NextCatalog then None else e.name
  }

  /** Does the element become an entry? Not when an attribute is missing or the URI cannot be built. */
  predicate Loads(build: Builder, e: Element, bases: seq<string>) {
    && e.EntryElement? && EntryKind(e.kind)
    && (e.kind != NextCatalog ==> e.name.Some?) && e.value.Some?
    && build(e.value.value, Bases(bases, e.base)).Some?
  }

  // ---------------------------------------------------------------- loading

  /** The entries that one node adds to a list which has `at` entries already. */
  ghost function FlatNode(
      build: Builder, e: Element, prefer: Prefer, group: Option<nat>, bases: seq<string>, at: nat): seq<Entry>
    decreases e, 0
  {
    match e
    case GroupElement(attr, id, base, children) =>
      [NewEntry(Group, id, base, None, Noted(prefer, attr), group)]
      + FlatList(build, children, |children|, Inherited(prefer, attr), Some(at), Bases(bases, base), at + 1)
    case EntryElement(kind, _, value, base) =>
      if Loads(build, e, bases)
      then [NewEntry(kind, NameAttr(e), value, build(value.value, Bases(bases, base)), prefer, group)]
      else []
    case OtherElement => []
  }

  /** The entries that the first n of some siblings add. */
  ghost function FlatList(
      build: Builder, es: seq<Element>, n: nat, prefer: Prefer, group: Option<nat>, bases: seq<string>,
      at: nat): seq<Entry>
    requires n <= |es|
    decreases es, n
  {
    if n == 0 then []
    else
      var l := FlatList(build, es, n - 1, prefer, group, bases, at);
      l + FlatNode(build, es[n - 1], prefer, group, bases, at + |l|)
  }

  lemma FlatMore(
      build: Builder, es: seq<Element>, i: nat, prefer: Prefer, group: Option<nat>, bases: seq<string>,
      before: seq<Entry>)
    requires i < |es|
    ensures
      var done := before + FlatList(build, es, i, prefer, group, bases, |before|);
      before + FlatList(build, es, i + 1, prefer, group, bases, |before|)
        == done + FlatNode(build, es[i], prefer, group, bases, |done|)
  {
    var l := FlatList(build, es, i, prefer, group, bases, |before|);
    var node := FlatNode(build, es[i], prefer, group, bases, |before| + |l|);
    assert before + l + node == before + (l + node);
  }

  /** The list of entries of the catalog being loaded. */
  class Loader {
    var children: seq<Entry>
    const build: Builder

    constructor (build: Builder)
      ensures children == [] && this.build == build
    {
      children := [];
      this.build := build;
    }

    /** xmlParseXMLCatalogOneNode. */
    method ParseOneNode(e: Element, prefer: Prefer, cgroup: Option<nat>, bases: seq<string>)
        returns (r: Option<Entry>)
      requires e.EntryElement? && EntryKind(e.kind)
      ensures (if r.None? then [] else [r.value]) == FlatNode(build, e, prefer, cgroup, bases, |children|)
    {
      if (e.kind != NextCatalog && e.name.None?) || e.value.None? {
        return None;
      }
      var url := build(e.value.value, Bases(bases, e.base));
      if url.None? {
        return None;
      }
      r := Some(NewEntry(e.kind, NameAttr(e), e.value, url, prefer, cgroup));
    }

    /** xmlParseXMLCatalogNode. */
    method ParseNode(e: Element, prefer: Prefer, cgroup: Option<nat>, bases: seq<string>)
      modifies this
      ensures children == old(children) + FlatNode(build, e, prefer, cgroup, bases, |old(children)|)
      decreases e, 0
    {
      match e
      case GroupElement(attr, id, base, nested) =>
        var inner, pref := prefer, NoPrefer;
        if attr.Some? {
          if attr.value == "system" {
            inner := PreferSystem;
          } else if attr.value == "public" {
            inner := PreferPublic;
          }
          pref := inner;
        }
        var at := |children|;
        children := children + [NewEntry(Group, id, base, None, pref, cgroup)];
        ParseNodeList(nested, inner, Some(at), Bases(bases, base));
      case EntryElement(kind, _, _, _) =>
        if EntryKind(kind) {
          var entry := ParseOneNode(e, prefer, cgroup, bases);
          if entry.Some? {
            children := children + [entry.value];
          }
        }
      case OtherElement =>
    }

    /** xmlParseXMLCatalogNodeList. */
    method ParseNodeList(es: seq<Element>, prefer: Prefer, cgroup: Option<nat>, bases: seq<string>)
      modifies this
      ensures children == old(children) + FlatList(build, es, |es|, prefer, cgroup, bases, |old(children)|)
      decreases es
    {
      ghost var before := children;
      for i := 0 to |es|
        invariant children == before + FlatList(build, es, i, prefer, cgroup, bases, |before|)
      {
        FlatMore(build, es, i, prefer, cgroup, bases, before);
        ParseNode(es[i], prefer, cgroup, bases);
      }
    }
  }

  // ---------------------------------------------------------------- dumping

  function PreferAttr(prefer: Prefer): Option<string> {
    match prefer
    case NoPrefer => None
    case PreferPublic => Some("public")
    case PreferSystem => Some("system")
  }

  /** An attribute set from a missing value is there, but empty. */
  function SetProp(value: Option<string>): Option<string> {
    if value.None? then Some("") else value
  }

  /** What is written for the entries with the group among those from position i on. */
  function DumpFrom(list: seq<Entry>, i: nat, cgroup: Option<nat>): seq<Element>
    requires i <= |list|
    decreases |list| - i
  {
    if i == |list| then []
    else if list[i].group == cgroup then ElementsOf(list, i) + DumpFrom(list, i + 1, cgroup)
    else DumpFrom(list, i + 1, cgroup)
  }

  function ElementsOf(list: seq<Entry>, i: nat): seq<Element>
    requires i < |list|
    decreases |list| - i, 0
  {
    var e := list[i];
    match e.kind
    case Catalog => []
    case Group => [GroupElement(PreferAttr(e.prefer), SetProp(e.name), e.value, DumpFrom(list, i + 1, Some(i)))]
    case NextCatalog => [EntryElement(NextCatalog, None, SetProp(e.value), None)]
    case _ => [EntryElement(e.kind, SetProp(e.name), SetProp(e.value), None)]
  }

  /** xmlDumpXMLCatalogNode on the list from an entry on: adds children to the node for a group. */
  method DumpNode(list: seq<Entry>, start: nat, cgroup: Option<nat>) returns (catalog: seq<Element>)
    requires start <= |list|
    ensures catalog == DumpFrom(list, start, cgroup)
    decreases |list| - start
  {
    catalog := [];
    var i := start;
    while i < |list|
      invariant start <= i <= |list|
      invariant catalog + DumpFrom(list, i, cgroup) == DumpFrom(list, start, cgroup)
    {
      var cur := list[i];
      if cur.group == cgroup {
        var node := [];
        match cur.kind {
          case Catalog =>
          case Group =>
            var nested := DumpNode(list, i + 1, Some(i));
            node := [GroupElement(PreferAttr(cur.prefer), SetProp(cur.name), cur.value, nested)];
          case NextCatalog =>
            node := [EntryElement(NextCatalog, None, SetProp(cur.value), None)];
          case _ =>
            node := [EntryElement(cur.kind, SetProp(cur.name), SetProp(cur.value), None)];
        }
        assert catalog + (node + DumpFrom(list, i + 1, cgroup)) == catalog + node + DumpFrom(list, i + 1, cgroup);
        catalog := catalog + node;
      }
      i := i + 1;
    }
  }

  // ---------------------------------------------------------------- the round trip

  /** A file as it is written back: entries that cannot be loaded are gone, public names are normalised, a group
      has an id, and its preference is spelled out where it had an attribute. */
  ghost function CanonNode(build: Builder, e: Element, prefer: Prefer, bases: seq<string>): seq<Element>
    decreases e, 0
  {
    match e
    case GroupElement(attr, id, base, children) =>
      [GroupElement(PreferAttr(Noted(prefer, attr)), SetProp(id), base,
                    CanonList(build, children, |children|, Inherited(prefer, attr), Bases(bases, base)))]
    case EntryElement(kind, _, value, _) =>
      if !Loads(build, e, bases) then []
      else if kind == NextCatalog then [EntryElement(NextCatalog, None, value, None)]
      else [EntryElement(kind, if NormalisedKind(kind) then Some(Normal(e.name.value)) else e.name, value, None)]
    case OtherElement => []
  }

  ghost function CanonList(build: Builder, es: seq<Element>, n: nat, prefer: Prefer, bases: seq<string>): seq<Element>
    requires n <= |es|
    decreases es, n
  {
    if n == 0 then []
    else CanonList(build, es, n - 1, prefer, bases) + CanonNode(build, es[n - 1], prefer, bases)
  }

  /** The entries in [a, b) belong to the group or to groups among themselves. */
  ghost predicate Inside(list: seq<Entry>, a: nat, b: nat, group: Option<nat>) {
    a <= b <= |list| && forall j :: a <= j < b ==> list[j].group == group || Within(list[j].group, a, b)
  }

  predicate Within(group: Option<nat>, a: nat, b: nat) {
    group.Some? && a <= group.value < b
  }

  /** No entry from b on belongs to a group in [a, b). */
  ghost predicate Closed(list: seq<Entry>, a: nat, b: nat) {
    forall j :: b <= j < |list| ==> !Within(list[j].group, a, b)
  }

  lemma {:induction false} SkipForeign(list: seq<Entry>, i: nat, b: nat, group: Option<nat>)
    requires i <= b <= |list| && forall j :: i <= j < b ==> list[j].group != group
    ensures DumpFrom(list, i, group) == DumpFrom(list, b, group)
    decreases b - i
  {
    if i < b {
      SkipForeign(list, i + 1, b, group);
    }
  }

  /** A node's entries, dumped, are the node as it is written back. */
  lemma {:induction false} NodeRestored(
      build: Builder, e: Element, prefer: Prefer, group: Option<nat>, bases: seq<string>,
      list: seq<Entry>, a: nat, b: nat)
    requires a <= b <= |list| && (group.Some? ==> group.value < a)
    requires list[a..b] == FlatNode(build, e, prefer, group, bases, a)
    requires Closed(list, a, b)
    ensures Inside(list, a, b, group)
    ensures DumpFrom(list, a, group) == CanonNode(build, e, prefer, bases) + DumpFrom(list, b, group)
    decreases e, 0
  {
    var flat := FlatNode(build, e, prefer, group, bases, a);
    match e
    case GroupElement(attr, id, base, children) =>
      assert list[a] == flat[0];
      var inner, within := Inherited(prefer, attr), Bases(bases, base);
      assert list[a + 1..b] == flat[1..];
      ListRestored(build, children, |children|, inner, Some(a), within, list, a + 1, b);
      SkipForeign(list, b, |list|, Some(a));
      SkipForeign(list, a + 1, b, group);
      var nested := CanonList(build, children, |children|, inner, within);
      assert DumpFrom(list, a + 1, Some(a)) == nested + DumpFrom(list, |list|, Some(a)) == nested;
      assert ElementsOf(list, a) == CanonNode(build, e, prefer, bases);
    case EntryElement(kind, name, value, _) =>
      if Loads(build, e, bases) {
        assert list[a] == flat[0];
      }
    case OtherElement =>
  }

  lemma SplitSegment(list: seq<Entry>, a: nat, b: nat, l: seq<Entry>, r: seq<Entry>)
    requires a <= b <= |list| && list[a..b] == l + r
    ensures list[a..a + |l|] == l && list[a + |l|..b] == r
  {
    assert list[a..a + |l|] == list[a..b][..|l|];
    assert list[a + |l|..b] == list[a..b][|l|..];
  }

  lemma {:induction false} ListRestored(
      build: Builder, es: seq<Element>, n: nat, prefer: Prefer, group: Option<nat>, bases: seq<string>,
      list: seq<Entry>, a: nat, b: nat)
    requires n <= |es| && a <= b <= |list| && (group.Some? ==> group.value < a)
    requires list[a..b] == FlatList(build, es, n, prefer, group, bases, a)
    requires Closed(list, a, b)
    ensures Inside(list, a, b, group)
    ensures DumpFrom(list, a, group) == CanonList(build, es, n, prefer, bases) + DumpFrom(list, b, group)
    decreases es, n
  {
    if n > 0 {
      var l := FlatList(build, es, n - 1, prefer, group, bases, a);
      var m := a + |l|;
      SplitSegment(list, a, b, l, FlatNode(build, es[n - 1], prefer, group, bases, m));
      NodeRestored(build, es[n - 1], prefer, group, bases, list, m, b);
      ListRestored(build, es, n - 1, prefer, group, bases, list, a, m);
    }
  }

  /** Loading a file and dumping the list restores its groups and entries, whatever the nesting. */
  lemma DumpRestores(build: Builder, es: seq<Element>, prefer: Prefer)
    ensures DumpFrom(FlatList(build, es, |es|, prefer, None, [], 0), 0, None) == CanonList(build, es, |es|, prefer, [])
  {
    var list := FlatList(build, es, |es|, prefer, None, [], 0);
    assert list[0..|list|] == list;
    ListRestored(build, es, |es|, prefer, None, [], list, 0, |list|);
  }

  // ---------------------------------------------------------------- reloading a dump

  /** Every loaded entry's URI is built the same without its own xml:base: the attribute is not kept with the entry. */
  ghost predicate SameBuilt(build: Builder, e: Element, bases: seq<string>) {
    match e
    case GroupElement(_, _, base, children) =>
      forall i :: 0 <= i < |children| ==> SameBuilt(build, children[i], Bases(bases, base))
    case EntryElement(_, _, value, base) =>
      Loads(build, e, bases) ==> build(value.value, Bases(bases, base)) == build(value.value, bases)
    case OtherElement => true
  }

  /** What one save and reload changes in an entry: a group without an id gets an empty one. */
  function Reloaded(e: Entry): Entry {
    if e.kind == Group then e.(name := SetProp(e.name)) else e
  }

  function ReloadedAll(l: seq<Entry>): seq<Entry> {
    if l == [] then [] else ReloadedAll(l[..|l| - 1]) + [Reloaded(l[|l| - 1])]
  }

  lemma {:induction false} ReloadedAppend(a: seq<Entry>, b: seq<Entry>)
    ensures ReloadedAll(a + b) == ReloadedAll(a) + ReloadedAll(b)
    ensures |ReloadedAll(a)| == |a|
    decreases |a| + |b|
  {
    if b != [] {
      assert (a + b)[..|a + b| - 1] == a + b[..|b| - 1];
      ReloadedAppend(a, b[..|b| - 1]);
    } else {
      assert a + b == a;
      if a != [] {
        ReloadedAppend(a[..|a| - 1], []);
      }
    }
  }

  lemma {:induction false} FlatPrefix(
      build: Builder, a: seq<Element>, b: seq<Element>, n: nat, prefer: Prefer, group: Option<nat>,
      bases: seq<string>, at: nat)
    requires n <= |a|
    ensures FlatList(build, a + b, n, prefer, group, bases, at) == FlatList(build, a, n, prefer, group, bases, at)
    decreases n
  {
    if n > 0 {
      FlatPrefix(build, a, b, n - 1, prefer, group, bases, at);
    }
  }

  /** Loading some siblings and at most one more. */
  lemma FlatOneMore(
      build: Builder, a: seq<Element>, b: seq<Element>, prefer: Prefer, group: Option<nat>, bases: seq<string>, at: nat)
    requires |b| <= 1
    ensures
      var l := FlatList(build, a, |a|, prefer, group, bases, at);
      FlatList(build, a + b, |a + b|, prefer, group, bases, at)
        == l + FlatList(build, b, |b|, prefer, group, bases, at + |l|)
  {
    FlatPrefix(build, a, b, |a|, prefer, group, bases, at);
    if b == [] {
      assert a + b == a;
    } else {
      var l := FlatList(build, a, |a|, prefer, group, bases, at);
      FlatSingle(build, b[0], prefer, group, bases, at + |l|);
      assert b == [b[0]];
    }
  }

  lemma FlatSingle(
      build: Builder, e: Element, prefer: Prefer, group: Option<nat>, bases: seq<string>, at: nat)
    ensures FlatList(build, [e], 1, prefer, group, bases, at) == FlatNode(build, e, prefer, group, bases, at)
  {
    assert FlatList(build, [e], 0, prefer, group, bases, at) == [];
  }

  lemma PreferSurvives(outer: Prefer, attr: Option<string>)
    ensures
      var written := PreferAttr(Noted(outer, attr));
      Inherited(outer, written) == Inherited(outer, attr) && Noted(outer, written) == Noted(outer, attr)
  {
  }

  /** Loading the canonical elements gives the entries, up to what a reload changes. */
  ghost predicate Reloads(
      build: Builder, canon: seq<Element>, flat: seq<Entry>, prefer: Prefer, group: Option<nat>, bases: seq<string>,
      at: nat)
  {
    FlatList(build, canon, |canon|, prefer, group, bases, at) == ReloadedAll(flat)
  }

  /** A reload never finds more entries than there were, wherever the list begins. */
  lemma {:induction false} NodeNotLonger(
      build: Builder, e: Element, prefer: Prefer, group: Option<nat>, groupNow: Option<nat>, bases: seq<string>,
      at: nat, now: nat)
    ensures
      var canon := CanonNode(build, e, prefer, bases);
      && |canon| <= 1
      && |FlatList(build, canon, |canon|, prefer, groupNow, bases, now)|
         <= |FlatNode(build, e, prefer, group, bases, at)|
    decreases e, 0
  {
    var canon := CanonNode(build, e, prefer, bases);
    if canon != [] {
      assert canon == [canon[0]];
      FlatSingle(build, canon[0], prefer, groupNow, bases, now);
    }
    if e.GroupElement? {
      var inner := Inherited(prefer, e.prefer);
      PreferSurvives(prefer, e.prefer);
      ListNotLonger(build, e.children, |e.children|, inner, Some(at), Some(now), Bases(bases, e.base),
                    at + 1, now + 1);
    }
  }

  lemma {:induction false} ListNotLonger(
      build: Builder, es: seq<Element>, n: nat, prefer: Prefer, group: Option<nat>, groupNow: Option<nat>,
      bases: seq<string>, at: nat, now: nat)
    requires n <= |es|
    ensures
      var canon := CanonList(build, es, n, prefer, bases);
      |FlatList(build, canon, |canon|, prefer, groupNow, bases, now)|
      <= |FlatList(build, es, n, prefer, group, bases, at)|
    decreases es, n
  {
    if n > 0 {
      var front, last := CanonList(build, es, n - 1, prefer, bases), CanonNode(build, es[n - 1], prefer, bases);
      var l := FlatList(build, es, n - 1, prefer, group, bases, at);
      var m := FlatList(build, front, |front|, prefer, groupNow, bases, now);
      ListNotLonger(build, es, n - 1, prefer, group, groupNow, bases, at, now);
      NodeNotLonger(build, es[n - 1], prefer, group, groupNow, bases, at + |l|, now + |m|);
      FlatOneMore(build, front, last, prefer, groupNow, bases, now);
    }
  }

  /** A node is reloaded as it was exactly if its URIs are built the same. */
  lemma {:induction false} NodeReloaded(
      build: Builder, e: Element, prefer: Prefer, group: Option<nat>, bases: seq<string>, at: nat)
    ensures
      var canon := CanonNode(build, e, prefer, bases);
      Reloads(build, canon, FlatNode(build, e, prefer, group, bases, at), prefer, group, bases, at)
      <==> SameBuilt(build, e, bases)
    decreases e, 0
  {
    match e
    case GroupElement(attr, id, base, children) =>
      ListReloaded(build, children, |children|, Inherited(prefer, attr), Some(at), Bases(bases, base), at + 1);
      GroupReloaded(build, e, prefer, group, bases, at);
    case EntryElement(_, _, _, _) =>
      EntryReloaded(build, e, prefer, group, bases, at);
    case OtherElement =>
  }

  lemma GroupReloaded(
      build: Builder, e: Element, prefer: Prefer, group: Option<nat>, bases: seq<string>, at: nat)
    requires e.GroupElement?
    ensures
      var inner, within := Inherited(prefer, e.prefer), Bases(bases, e.base);
      Reloads(build, CanonNode(build, e, prefer, bases), FlatNode(build, e, prefer, group, bases, at),
              prefer, group, bases, at)
      <==> Reloads(build, CanonList(build, e.children, |e.children|, inner, within),
                   FlatList(build, e.children, |e.children|, inner, Some(at), within, at + 1),
                   inner, Some(at), within, at + 1)
  {
    var inner, within := Inherited(prefer, e.prefer), Bases(bases, e.base);
    var flat, canon := FlatNode(build, e, prefer, group, bases, at), CanonNode(build, e, prefer, bases)[0];
    PreferSurvives(prefer, e.prefer);
    FlatSingle(build, canon, prefer, group, bases, at);
    GroupReloads(Reloaded(flat[0]), flat,
                 FlatList(build, canon.children, |canon.children|, inner, Some(at), within, at + 1));
  }

  lemma EntryReloaded(
      build: Builder, e: Element, prefer: Prefer, group: Option<nat>, bases: seq<string>, at: nat)
    requires e.EntryElement?
    ensures
      Reloads(build, CanonNode(build, e, prefer, bases), FlatNode(build, e, prefer, group, bases, at),
              prefer, group, bases, at)
      <==> SameBuilt(build, e, bases)
  {
    if Loads(build, e, bases) {
      var canon := CanonNode(build, e, prefer, bases)[0];
      FlatSingle(build, canon, prefer, group, bases, at);
      WrittenReloads(build, e, prefer, group, bases, at);
      ReloadedOne(FlatNode(build, e, prefer, group, bases, at)[0]);
    }
  }

  /** What is written for an entry loads as the entry with the URI that is built without its own base. */
  lemma WrittenReloads(
      build: Builder, e: Element, prefer: Prefer, group: Option<nat>, bases: seq<string>, at: nat)
    requires e.EntryElement? && Loads(build, e, bases)
    ensures
      var entry, canon := FlatNode(build, e, prefer, group, bases, at)[0], CanonNode(build, e, prefer, bases)[0];
      FlatNode(build, canon, prefer, group, bases, at)
      == if build(e.value.value, bases).None? then [] else [entry.(url := build(e.value.value, bases))]
  {
    if NormalisedKind(e.kind) {
      NormalIdempotent(e.name.value);
    }
  }

  lemma ReloadedOne(e: Entry)
    ensures ReloadedAll([e]) == [Reloaded(e)]
  {
    assert [e][..0] == [];
  }

  lemma GroupReloads(head: Entry, flat: seq<Entry>, now: seq<Entry>)
    requires flat != [] && head == Reloaded(flat[0])
    ensures [head] + now == ReloadedAll(flat) <==> now == ReloadedAll(flat[1..])
  {
    ReloadedAppend([flat[0]], flat[1..]);
    ReloadedOne(flat[0]);
    assert [flat[0]] + flat[1..] == flat;
    assert ([head] + now)[1..] == now && ([head] + ReloadedAll(flat[1..]))[1..] == ReloadedAll(flat[1..]);
  }

  lemma {:induction false} ListReloaded(
      build: Builder, es: seq<Element>, n: nat, prefer: Prefer, group: Option<nat>, bases: seq<string>, at: nat)
    requires n <= |es|
    ensures Reloads(build, CanonList(build, es, n, prefer, bases), FlatList(build, es, n, prefer, group, bases, at),
                    prefer, group, bases, at)
       <==> AllSameBuilt(build, es, n, bases)
    decreases es, n
  {
    if n > 0 {
      var e := es[n - 1];
      AllSameStep(build, es, n, bases);
      ListReloaded(build, es, n - 1, prefer, group, bases, at);
      NodeReloaded(build, e, prefer, group, bases, at + |FlatList(build, es, n - 1, prefer, group, bases, at)|);
      ListStep(build, es, n, prefer, group, bases, at);
    }
  }

  ghost predicate AllSameBuilt(build: Builder, es: seq<Element>, n: nat, bases: seq<string>)
    requires n <= |es|
  {
    forall i :: 0 <= i < n ==> SameBuilt(build, es[i], bases)
  }

  lemma AllSameStep(build: Builder, es: seq<Element>, n: nat, bases: seq<string>)
    requires 0 < n <= |es|
    ensures AllSameBuilt(build, es, n, bases)
       <==> AllSameBuilt(build, es, n - 1, bases) && SameBuilt(build, es[n - 1], bases)
  {
  }

  /** Of the first siblings and the next one, neither gets longer. */
  lemma PartsNotLonger(
      build: Builder, es: seq<Element>, n: nat, prefer: Prefer, group: Option<nat>, bases: seq<string>, at: nat)
    requires 0 < n <= |es|
    ensures
      var l := FlatList(build, es, n - 1, prefer, group, bases, at);
      var front, last := CanonList(build, es, n - 1, prefer, bases), CanonNode(build, es[n - 1], prefer, bases);
      var m := FlatList(build, front, |front|, prefer, group, bases, at);
      && |last| <= 1 && |m| <= |l|
      && |FlatList(build, last, |last|, prefer, group, bases, at + |m|)|
         <= |FlatNode(build, es[n - 1], prefer, group, bases, at + |l|)|
  {
    var l := FlatList(build, es, n - 1, prefer, group, bases, at);
    var front := CanonList(build, es, n - 1, prefer, bases);
    var m := FlatList(build, front, |front|, prefer, group, bases, at);
    ListNotLonger(build, es, n - 1, prefer, group, group, bases, at, at);
    NodeNotLonger(build, es[n - 1], prefer, group, group, bases, at + |l|, at + |m|);
  }

  lemma ListStep(
      build: Builder, es: seq<Element>, n: nat, prefer: Prefer, group: Option<nat>, bases: seq<string>, at: nat)
    requires 0 < n <= |es|
    ensures
      var l := FlatList(build, es, n - 1, prefer, group, bases, at);
      var node := FlatNode(build, es[n - 1], prefer, group, bases, at + |l|);
      Reloads(build, CanonList(build, es, n, prefer, bases), FlatList(build, es, n, prefer, group, bases, at),
              prefer, group, bases, at)
      <==> Reloads(build, CanonList(build, es, n - 1, prefer, bases), l, prefer, group, bases, at)
           && Reloads(build, CanonNode(build, es[n - 1], prefer, bases), node, prefer, group, bases, at + |l|)
  {
    var l := FlatList(build, es, n - 1, prefer, group, bases, at);
    var front, last := CanonList(build, es, n - 1, prefer, bases), CanonNode(build, es[n - 1], prefer, bases);
    var node := FlatNode(build, es[n - 1], prefer, group, bases, at + |l|);
    PartsNotLonger(build, es, n, prefer, group, bases, at);
    assert CanonList(build, es, n, prefer, bases) == front + last;
    assert FlatList(build, es, n, prefer, group, bases, at) == l + node;
    ReloadStep(build, front, last, l, node, prefer, group, bases, at);
  }

  /** Since neither part gets longer, the whole is reloaded as it was exactly if both parts are. */
  lemma ReloadStep(
      build: Builder, front: seq<Element>, last: seq<Element>, l: seq<Entry>, node: seq<Entry>, prefer: Prefer,
      group: Option<nat>, bases: seq<string>, at: nat)
    requires |last| <= 1
    requires
      var m := FlatList(build, front, |front|, prefer, group, bases, at);
      |m| <= |l| && |FlatList(build, last, |last|, prefer, group, bases, at + |m|)| <= |node|
    ensures Reloads(build, front + last, l + node, prefer, group, bases, at)
       <==> Reloads(build, front, l, prefer, group, bases, at)
            && Reloads(build, last, node, prefer, group, bases, at + |l|)
  {
    var m := FlatList(build, front, |front|, prefer, group, bases, at);
    ReloadedAppend(l, node);
    ReloadedAppend(node, []);
    FlatOneMore(build, front, last, prefer, group, bases, at);
    SameSplit(m, FlatList(build, last, |last|, prefer, group, bases, at + |m|), ReloadedAll(l), ReloadedAll(node));
  }

  lemma SameSplit(a: seq<Entry>, b: seq<Entry>, c: seq<Entry>, d: seq<Entry>)
    requires |a| <= |c| && |b| <= |d|
    ensures a + b == c + d <==> a == c && b == d
  {
    if a + b == c + d {
      assert |a + b| == |c + d|;
      assert (a + b)[..|a|] == a && (c + d)[..|c|] == c && (a + b)[|a|..] == b && (c + d)[|c|..] == d;
    }
  }

  /** Saving a loaded catalog and loading it again, at the same place and with the same outer preference, gives
      the same list (types, names, values, URLs, preferences and groups) exactly if every loaded entry's URI is built
      the same without the entry's own xml:base. */
  lemma ReloadKeepsList(build: Builder, es: seq<Element>, prefer: Prefer)
    ensures
      var list := FlatList(build, es, |es|, prefer, None, [], 0);
      var dumped := DumpFrom(list, 0, None);
      FlatList(build, dumped, |dumped|, prefer, None, [], 0) == ReloadedAll(list)
      <==> forall i :: 0 <= i < |es| ==> SameBuilt(build, es[i], [])
  {
    DumpRestores(build, es, prefer);
    ListReloaded(build, es, |es|, prefer, None, [], 0);
  }

  function Appended(value: string, bases: seq<string>): Option<string> {
    Some(if bases == [] then value else bases[|bases| - 1] + value)
  }

  /** Where URIs are appended to the innermost base, an entry b with the base x/ is reloaded with another URL. */
  lemma OwnBaseIsLost(prefer: Prefer)
    ensures
      var list := FlatList(Appended, [EntryElement(System, Some("a"), Some("b"), Some("x/"))], 1, prefer, None, [], 0);
      var dumped := DumpFrom(list, 0, None);
      && list == [Entry(System, Some("a"), Some("b"), Some("x/b"), prefer, None)]
      && FlatList(Appended, dumped, |dumped|, prefer, None, [], 0)
           == [Entry(System, Some("a"), Some("b"), Some("b"), prefer, None)]
  {
    var e := EntryElement(System, Some("a"), Some("b"), Some("x/"));
    var kept := EntryElement(System, Some("a"), Some("b"), None);
    assert "x/" + "b" == "x/b";
    FlatSingle(Appended, e, prefer, None, [], 0);
    FlatSingle(Appended, kept, prefer, None, [], 0);
    var list := FlatList(Appended, [e], 1, prefer, None, [], 0);
    assert DumpFrom(list, 1, None) == [];
    assert DumpFrom(list, 0, None) == [kept];
  }
}

/** The order of what a start tag declares and of its attributes, told by their characters: declarations ascend by
    prefix; attributes without a namespace come first, then the others by URI and by local name. */
module C14nSorted {
  import opened XmlString
  import opened SortedList
  import opened XmlTree
  import opened C14nEscape
  import opened C14nSpec
  import opened C14nMeaning

  // ---------------------------------------------------------------- sorted lists of attributes

  /** No expanded name twice, and a qualified attribute has a prefix (section 6.3 of Namespaces in XML). */
  ghost predicate DistinctKeys(attrs: seq<Attr>) {
    && (forall i, j :: 0 <= i < j < |attrs| ==> AttrKey(attrs[i]) != AttrKey(attrs[j]))
    && (forall a :: a in attrs ==> Prefixed(a))
  }

  ghost predicate Ordered(list: seq<Attr>) {
    Sorted(list, AttrKey) && forall a :: a in list ==> Prefixed(a)
  }

  lemma InsertOrdered(list: seq<Attr>, a: Attr)
    requires Ordered(list) && Prefixed(a)
    requires forall x :: x in list ==> AttrKey(x) != AttrKey(a)
    ensures Ordered(Inserted(list, a, AttrCompare))
  {
    forall x | x in list
      ensures AttrCompare(x, a) < 0 <==> KeyCmp(AttrKey(x), AttrKey(a)) < 0
      ensures AttrCompare(x, a) == 0 <==> AttrKey(x) == AttrKey(a)
    {
      AttrCompareIsKeyOrder(x, a);
    }
    InsertedSorted(list, a, AttrCompare, AttrKey);
    InsertedElements(list, a, AttrCompare);
  }

  lemma SearchOrdered(list: seq<Attr>, a: Attr)
    requires Ordered(list) && Prefixed(a)
    ensures Searched(list, a, AttrCompare) <==> exists x :: x in list && AttrKey(x) == AttrKey(a)
  {
    forall x | x in list
      ensures AttrCompare(x, a) < 0 <==> KeyCmp(AttrKey(x), AttrKey(a)) < 0
      ensures AttrCompare(x, a) == 0 <==> AttrKey(x) == AttrKey(a)
    {
      AttrCompareIsKeyOrder(x, a);
    }
    SearchFinds(list, a, AttrCompare, AttrKey);
  }

  ghost predicate HasKey(list: seq<Attr>, k: Key) {
    exists x :: x in list && AttrKey(x) == k
  }

  /** The list after the visible attributes: sorted, and exactly those attributes. */
  lemma {:induction false} AddVisibleIs(list: seq<Attr>, attrs: seq<Attr>)
    requires Ordered(list) && DistinctKeys(attrs)
    requires forall a :: a in attrs ==> !HasKey(list, AttrKey(a))
    ensures Ordered(AddVisible(list, attrs))
    ensures forall x :: x in AddVisible(list, attrs) <==> x in list || (x in attrs && x.visible)
    decreases |attrs|
  {
    if attrs != [] {
      var a, rest := attrs[0], attrs[1..];
      assert attrs == [a] + rest;
      var list' := if a.visible then Inserted(list, a, AttrCompare) else list;
      if a.visible {
        InsertOrdered(list, a);
        InsertedElements(list, a, AttrCompare);
      }
      forall i | 0 <= i < |rest|
        ensures !HasKey(list', AttrKey(rest[i]))
      {
        assert rest[i] in attrs && AttrKey(attrs[0]) != AttrKey(attrs[i + 1]);
      }
      AddVisibleIs(list', rest);
    }
  }

  /** The list after one ancestor's xml attributes: those whose names were still free are added. */
  lemma {:induction false} AddXmlIs(list: seq<Attr>, attrs: seq<Attr>)
    requires Ordered(list) && DistinctKeys(attrs)
    ensures Ordered(AddXml(list, attrs))
    ensures forall x :: x in AddXml(list, attrs) <==>
              x in list || (x in attrs && IsXmlAttr(x) && !HasKey(list, AttrKey(x)))
    decreases |attrs|
  {
    if attrs != [] {
      var a, rest := attrs[0], attrs[1..];
      assert attrs == [a] + rest;
      SearchOrdered(list, a);
      if IsXmlAttr(a) && !HasKey(list, AttrKey(a)) {
        var list' := Inserted(list, a, AttrCompare);
        InsertOrdered(list, a);
        InsertedElements(list, a, AttrCompare);
        AddXmlIs(list', rest);
        forall i | 0 <= i < |rest|
          ensures HasKey(list', AttrKey(rest[i])) == HasKey(list, AttrKey(rest[i]))
        {
          assert AttrKey(attrs[0]) != AttrKey(attrs[i + 1]);
          if HasKey(list, AttrKey(rest[i])) {
            var x :| x in list && AttrKey(x) == AttrKey(rest[i]);
            assert x in list';
          }
        }
      } else {
        AddXmlIs(list, rest);
      }
    }
  }

  // ---------------------------------------------------------------- the attributes of the axis

  ghost predicate HasXmlKey(attrs: seq<Attr>, k: Key) {
    exists x :: x in attrs && IsXmlAttr(x) && AttrKey(x) == k
  }

  ghost predicate AllDistinct(path: Path) {
    forall n :: n in path ==> DistinctKeys(Attrs(n))
  }

  /** The nearest of the elements that has the xml attribute, where the list does not have it. */
  ghost predicate InheritedFrom(list: seq<Attr>, path: Path, k: nat, x: Attr)
    requires k < |path|
  {
    && x in Attrs(path[k]) && IsXmlAttr(x) && !HasKey(list, AttrKey(x))
    && forall j :: 0 <= j < k ==> !HasXmlKey(Attrs(path[j]), AttrKey(x))
  }

  ghost predicate Inherits(list: seq<Attr>, path: Path, x: Attr) {
    exists k: nat :: k < |path| && InheritedFrom(list, path, k, x)
  }

  lemma AddXmlKeys(list: seq<Attr>, attrs: seq<Attr>, k: Key)
    requires Ordered(list) && DistinctKeys(attrs)
    ensures HasKey(AddXml(list, attrs), k) <==> HasKey(list, k) || HasXmlKey(attrs, k)
  {
    AddXmlIs(list, attrs);
    if x :| x in list && AttrKey(x) == k {
      assert x in AddXml(list, attrs);
    } else if x :| x in attrs && IsXmlAttr(x) && AttrKey(x) == k {
      assert x in AddXml(list, attrs);
    }
  }

  lemma InheritsBehind(list: seq<Attr>, path: Path, x: Attr)
    requires path != [] && AllDistinct(path) && Ordered(list)
    ensures
      var list' := AddXml(list, Attrs(path[0]));
      Inherits(list, path, x) <==>
        (x in Attrs(path[0]) && IsXmlAttr(x) && !HasKey(list, AttrKey(x))) || Inherits(list', path[1..], x)
  {
    var list', key := AddXml(list, Attrs(path[0])), AttrKey(x);
    assert path[0] in path;
    AddXmlKeys(list, Attrs(path[0]), key);
    if Inherits(list, path, x) {
      var k: nat :| k < |path| && InheritedFrom(list, path, k, x);
      if k > 0 {
        assert !HasXmlKey(Attrs(path[0]), key);
        assert InheritedFrom(list', path[1..], k - 1, x);
      }
    }
    if Inherits(list', path[1..], x) {
      var k: nat :| k < |path[1..]| && InheritedFrom(list', path[1..], k, x);
      forall j | 0 <= j < k + 1
        ensures !HasXmlKey(Attrs(path[j]), key)
      {
        if j > 0 { assert path[j] == path[1..][j - 1]; }
      }
      assert InheritedFrom(list, path, k + 1, x);
    }
    if x in Attrs(path[0]) && IsXmlAttr(x) && !HasKey(list, key) {
      assert InheritedFrom(list, path, 0, x);
    }
  }

  lemma {:induction false} AddInheritedIs(list: seq<Attr>, path: Path)
    requires Ordered(list) && AllDistinct(path)
    ensures Ordered(AddInherited(list, path))
    ensures forall x :: x in AddInherited(list, path) <==> x in list || Inherits(list, path, x)
    decreases |path|
  {
    if path != [] {
      assert path[0] in path;
      AddXmlIs(list, Attrs(path[0]));
      AddInheritedIs(AddXml(list, Attrs(path[0])), path[1..]);
      forall x
        ensures x in AddInherited(list, path) <==> x in list || Inherits(list, path, x)
      {
        InheritsBehind(list, path, x);
      }
    }
  }

  /** The axis: the visible attributes, and in inclusive form, for an output element below an omitted parent, the
      nearest xml attribute of each name that no visible attribute has; all in order. */
  lemma AxisIs(mode: Mode, path: Path)
    requires path != [] && path[0].Element? && AllDistinct(path)
    ensures Ordered(AttrAxis(mode, path))
    ensures forall x :: x in AttrAxis(mode, path) <==>
      || (x in path[0].attrs && x.visible)
      || (mode.Inclusive? && path[0].visible && |path| > 1 && !path[1].visible
          && (forall y :: y in path[0].attrs && y.visible ==> AttrKey(y) != AttrKey(x))
          && exists k: nat :: k < |path| - 1 && InheritedFrom([], path[1..], k, x))
  {
    assert path[0] in path;
    var own := AddVisible([], path[0].attrs);
    AddVisibleIs([], path[0].attrs);
    AddInheritedIs(own, path[1..]);
    forall x
      ensures Inherits(own, path[1..], x) <==>
        && (forall y :: y in path[0].attrs && y.visible ==> AttrKey(y) != AttrKey(x))
        && exists k: nat :: k < |path| - 1 && InheritedFrom([], path[1..], k, x)
    {
      InheritsApart(own, path[1..], x);
    }
  }

  lemma InheritsApart(list: seq<Attr>, path: Path, x: Attr)
    ensures Inherits(list, path, x) <==>
      !HasKey(list, AttrKey(x)) && exists k: nat :: k < |path| && InheritedFrom([], path, k, x)
  {
    if k: nat :| k < |path| && InheritedFrom(list, path, k, x) {
      assert InheritedFrom([], path, k, x);
    }
    if !HasKey(list, AttrKey(x)) {
      if k: nat :| k < |path| && InheritedFrom([], path, k, x) {
        assert InheritedFrom(list, path, k, x);
      }
    }
  }

  // ---------------------------------------------------------------- declarations

  /** Ascending prefixes. */
  ghost predicate DeclsAscend(ds: seq<Decl>) {
    forall i, j :: 0 <= i < j < |ds| ==> Precedes(ds[i].prefix, ds[j].prefix)
  }

  /** A set of bindings has one listing, the one that ascends by prefix. */
  lemma ListingAscends(ds: seq<Decl>, m: Env)
    ensures ds == Listing(m) <==>
      DeclsAscend(ds) && forall d :: d in ds <==> d.prefix in m && m[d.prefix] == d.href
  {
    forall i, j | 0 <= i < j < |ds|
      ensures KeyCmp(DeclKey(ds[i]), DeclKey(ds[j])) < 0 <==> Precedes(ds[i].prefix, ds[j].prefix)
    {
      StrCmpIsOrder(ds[i].prefix, ds[j].prefix);
    }
    assert Sorted(ds, DeclKey) <==> DeclsAscend(ds) by {
      if Sorted(ds, DeclKey) {
        forall i, j | 0 <= i < j < |ds|
          ensures Precedes(ds[i].prefix, ds[j].prefix)
        {
          assert KeyCmp(DeclKey(ds[i]), DeclKey(ds[j])) < 0;
        }
      }
    }
    if Lists(ds, m) {
      ListingUnique(ds, m);
    }
  }

  /** What a start tag declares, where the bindings `env` are in force: in inclusive form every declaration in scope that
      is not in force; in exclusive form only for prefixes of the element's name, of the names of visible attributes,
      and of the inclusive list, where #default stands for the default namespace. */
  lemma TagDeclaresExactly(mode: Mode, path: Path, env: Env, p: string, href: string)
    requires path != [] && path[0].Element?
    ensures Xmlns(Decl(p, href)) in StartTag(mode, path, env) <==>
      && p != "xml" && Declared(path, p).Some? && Declared(path, p).value.href == href
      && (if p in env then env[p] != href else p != "" || href != "")
      && (mode.Exclusive? ==>
            || (p in mode.prefixes && p != "#default") || (p == "" && "#default" in mode.prefixes)
            || (path[0].ns.Some? && path[0].ns.value.prefix == p) || (path[0].ns.None? && p == "")
            || exists a :: a in path[0].attrs && a.visible && a.ns.Some? && a.ns.value.prefix == p)
  {
    TagDeclares(mode, path, env, p, href);
    if mode.Exclusive? {
      OnList(mode, p);
    }
  }

  lemma OnList(mode: Mode, p: string)
    requires mode.Exclusive?
    ensures OnInclusiveList(mode, p) <==>
      (p in mode.prefixes && p != "#default") || (p == "" && "#default" in mode.prefixes)
  {
    if p in mode.prefixes && p != "#default" {
      assert InclusivePrefix(p) == p;
    }
    if p == "" && "#default" in mode.prefixes {
      assert InclusivePrefix("#default") == p;
    }
  }

  // ---------------------------------------------------------------- the output, walked as a reader walks it

  /** The attributes ascend, in the namespaces that their prefixes have. */
  ghost predicate AttrsAscend(attrs: seq<Event>, env: Env)
    requires forall i :: 0 <= i < |attrs| ==> attrs[i].Attribute?
  {
    forall i, j :: 0 <= i < j < |attrs| ==>
      KeyPrecedes(Key(AttrUri(attrs[i].prefix, env), attrs[i].name), Key(AttrUri(attrs[j].prefix, env), attrs[j].name))
  }

  function Innermost(stack: seq<Env>): Env {
    if stack == [] then map[] else stack[|stack| - 1]
  }

  /** In every start tag declarations come first and ascend, and then the attributes ascend; `stack` holds the bindings,
      as written, inside the open elements. */
  ghost predicate Ascending(evs: seq<Event>, stack: seq<Env>)
    decreases |evs|
  {
    evs != [] ==>
      match evs[0]
      case Open(_, _) =>
        var (ds, r1) := TakeDecls(evs[1..]);
        var (attrs, r2) := TakeAttrs(r1);
        var env := BindAll(Innermost(stack), ds);
        && DeclsAscend(ds) && AttrsAscend(attrs, env)
        && r2 != [] && r2[0] == Close && Ascending(r2[1..], stack + [env])
      case End(_, _) => stack != [] && Ascending(evs[1..], stack[..|stack| - 1])
      case Chars(_) => Ascending(evs[1..], stack)
      case _ => false
  }

  lemma AxisAscends(mode: Mode, path: Path, env: Env)
    requires path != [] && path[0].Element? && AllDistinct(path) && AttrsRead(AttrAxis(mode, path), env)
    ensures AttrsAscend(AttrEvents(AttrAxis(mode, path)), env)
  {
    var attrs := AttrAxis(mode, path);
    AxisIs(mode, path);
    forall i, j | 0 <= i < j < |attrs|
      ensures KeyPrecedes(Key(AttrUri(PrefixOf(attrs[i].ns), env), attrs[i].name),
                          Key(AttrUri(PrefixOf(attrs[j].ns), env), attrs[j].name))
    {
      assert attrs[i] in attrs && attrs[j] in attrs;
      assert KeyCmp(AttrKey(attrs[i]), AttrKey(attrs[j])) < 0;
      KeyCmpIsOrder(AttrKey(attrs[i]), AttrKey(attrs[j]));
    }
  }

  lemma TagAscends(mode: Mode, path: Path, env: Env, rest: seq<Event>, stack: seq<Env>)
    requires path != [] && Consistent(path) && path[0].visible && AllDistinct(path)
    requires env.Keys <= Scope(path).Keys && Innermost(stack) == Norm(env)
    requires Ascending(rest, stack + [Norm(env + Needed(mode, path))])
    ensures Ascending(StartTag(mode, path, env) + rest, stack)
  {
    var needed := Needed(mode, path);
    TagSplits(mode, path, env, rest);
    MissingRestores(env, needed);
    ListingAscends(Listing(Missing(needed, env)), Missing(needed, env));
    AxisResolves(mode, path, Norm(env + needed));
    AxisAscends(mode, path, Norm(env + needed));
  }

  // ---------------------------------------------------------------- documents

  /** In every element of the subtree attributes are distinct. */
  ghost predicate AttrsDistinct(nodes: seq<Node>)
    decreases nodes
  {
    nodes == [] || (AttrsDistinct(nodes[1..])
                    && (nodes[0].Element? ==> DistinctKeys(nodes[0].attrs) && AttrsDistinct(nodes[0].children)))
  }

  lemma {:induction false} ListAscends(
      mode: Mode, above: Path, nodes: seq<Node>, env: Env, rest: seq<Event>, stack: seq<Env>)
    requires Consistent(above) && AllDistinct(above) && AdmissibleList(above, nodes) && AttrsDistinct(nodes)
    requires env.Keys <= Scope(above).Keys && Innermost(stack) == Norm(env) && Ascending(rest, stack)
    ensures Ascending(CanonList(mode, above, nodes, env) + rest, stack)
    decreases nodes
  {
    if nodes == [] {
      assert CanonList(mode, above, nodes, env) + rest == rest;
    } else {
      var node, tail := nodes[0], CanonList(mode, above, nodes[1..], env);
      Associative(Canon(mode, above, node, env), tail, rest);
      ListAscends(mode, above, nodes[1..], env, rest, stack);
      if node.Text? {
        TextAscends(mode, above, node, env, tail + rest, stack);
      } else {
        var path := [node] + above;
        assert path[1..] == above;
        ScopeGrows(node, above);
        if node.visible {
          var inside, after := env + Needed(mode, path), [End(PrefixOf(node.ns), node.name)] + (tail + rest);
          EndAscends(PrefixOf(node.ns), node.name, tail + rest, stack, Norm(inside));
          ListAscends(mode, path, node.children, inside, after, stack + [Norm(inside)]);
          CanonSplits(mode, path, env, tail + rest);
          TagAscends(mode, path, env, CanonList(mode, path, node.children, inside) + after, stack);
        } else {
          ListAscends(mode, path, node.children, env, tail + rest, stack);
          CanonOmitted(mode, above, node, env);
        }
      }
    }
  }

  lemma TextAscends(mode: Mode, above: Path, node: Node, env: Env, rest: seq<Event>, stack: seq<Env>)
    requires node.Text? && Ascending(rest, stack)
    ensures Ascending(Canon(mode, above, node, env) + rest, stack)
  {
    if node.visible {
      assert (Canon(mode, above, node, env) + rest)[1..] == rest;
    } else {
      assert Canon(mode, above, node, env) + rest == rest;
    }
  }

  lemma EndAscends(p: string, name: string, rest: seq<Event>, stack: seq<Env>, env: Env)
    requires Ascending(rest, stack)
    ensures Ascending([End(p, name)] + rest, stack + [env])
  {
    assert ([End(p, name)] + rest)[1..] == rest;
    assert (stack + [env])[..|stack|] == stack;
  }

  /** In every start tag of the canonical form declarations ascend by prefix, and attributes by namespace and name. */
  lemma CanonicalFormAscends(mode: Mode, nodes: seq<Node>)
    requires AdmissibleList([], nodes) && AttrsDistinct(nodes)
    ensures Ascending(CanonList(mode, [], nodes, map[]), [])
  {
    ListAscends(mode, [], nodes, map[], [], []);
    assert CanonList(mode, [], nodes, map[]) + [] == CanonList(mode, [], nodes, map[]);
  }
}

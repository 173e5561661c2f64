/** The canonicaliser: a recursive walk that keeps the rendered namespaces on a stack and writes into a buffer. */
module C14n {
  import opened XmlString
  import opened SortedList
  import opened XmlTree
  import opened C14nEscape
  import opened C14nSpec
  import opened NsStack
  import opened C14nMeaning
  import opened C14nSorted
  import opened Uri

  /** xmlC14NNsCompare. */
  function NsCompare(a: Ns, b: Ns): int {
    if a == b then 0 else StrCmp(a.prefix, b.prefix)
  }

  predicate IsXmlNs(ns: Ns) {
    ns.prefix == "xml" && ns.href == XML_NAMESPACE
  }

  function NsKey(ns: Ns): Key { Key(None, ns.prefix) }

  function DeclOf(ns: Ns): Decl { Decl(ns.prefix, ns.href) }

  function DeclsOf(list: seq<Ns>): (r: seq<Decl>)
    ensures |r| == |list| && forall i :: 0 <= i < |list| ==> r[i] == DeclOf(list[i])
  {
    seq(|list|, i requires 0 <= i < |list| => DeclOf(list[i]))
  }

  /** The list of declarations to print holds exactly the bindings of `m`, in order. */
  ghost predicate NsLists(list: seq<Ns>, m: Env) {
    && Sorted(list, NsKey)
    && (forall n :: n in list ==> n.prefix in m && m[n.prefix] == n.href)
    && (forall p :: p in m ==> exists n :: n in list && n.prefix == p)
  }

  lemma ListsDecls(list: seq<Ns>, m: Env)
    requires NsLists(list, m)
    ensures DeclsOf(list) == Listing(m)
  {
    var ds := DeclsOf(list);
    forall i, j | 0 <= i < j < |ds|
      ensures KeyCmp(DeclKey(ds[i]), DeclKey(ds[j])) < 0
    {
      assert KeyCmp(NsKey(list[i]), NsKey(list[j])) < 0;
    }
    forall d
      ensures d in ds <==> d.prefix in m && m[d.prefix] == d.href
    {
      if d in ds {
        var i :| 0 <= i < |ds| && ds[i] == d;
        assert list[i] in list;
      }
      if d.prefix in m && m[d.prefix] == d.href {
        var n :| n in list && n.prefix == d.prefix;
        var i :| 0 <= i < |list| && list[i] == n;
        assert ds[i] == d;
      }
    }
    ListingUnique(ds, m);
  }

  lemma MissingPush(pushed: Env, env: Env, p: string, href: string)
    requires p in pushed ==> pushed[p] == href
    ensures Missing(pushed[p := href], env) ==
            if InForce(env + pushed, p, href) then Missing(pushed, env) else Missing(pushed, env)[p := href]
    ensures !InForce(env + pushed, p, href) ==> p !in pushed
  {
  }

  lemma InsertLists(list: seq<Ns>, m: Env, ns: Ns)
    requires NsLists(list, m) && ns.prefix !in m
    ensures NsLists(Inserted(list, ns, NsCompare), m[ns.prefix := ns.href])
  {
    forall n | n in list
      ensures n.prefix != ns.prefix
    {
    }
    assert Agrees(NsCompare, NsKey, list, ns);
    InsertedSorted(list, ns, NsCompare, NsKey);
    InsertedElements(list, ns, NsCompare);
    var r, more := Inserted(list, ns, NsCompare), m[ns.prefix := ns.href];
    forall p | p in more
      ensures exists n :: n in r && n.prefix == p
    {
      if p == ns.prefix {
        assert ns in r;
      } else {
        var n :| n in list && n.prefix == p;
        assert n in r;
      }
    }
  }

  /** Pushing one more binding keeps the printed list equal to what is missing. */
  lemma CollectStep(list: seq<Ns>, pushed: Env, env: Env, ns: Ns)
    requires NsLists(list, Missing(pushed, env))
    requires ns.prefix in pushed ==> pushed[ns.prefix] == ns.href
    ensures NsLists(if InForce(env + pushed, ns.prefix, ns.href) then list else Inserted(list, ns, NsCompare),
                    Missing(pushed[ns.prefix := ns.href], env))
  {
    MissingPush(pushed, env, ns.prefix, ns.href);
    if !InForce(env + pushed, ns.prefix, ns.href) {
      InsertLists(list, Missing(pushed, env), ns);
    }
  }

  // ---------------------------------------------------------------- one element's pushes, on values

  ghost predicate Windowed(mode: Mode, p: string) {
    mode.Inclusive? || OnInclusiveList(mode, p)
  }

  /** The window that starts at `start` holds every binding in force that the windowed search is asked for. */
  ghost predicate WindowHolds(mode: Mode, view: seq<Ns>, start: nat)
    requires start <= |view|
  {
    forall p :: p in Nearest(view) && Windowed(mode, p) ==> p in Nearest(view[start..])
  }

  /** The nearest entries of the stack are the bindings in force, all of them declared above. */
  ghost predicate Tracks(mode: Mode, above: Path, env: Env, view: seq<Ns>, start: nat)
    requires start <= |view|
  {
    Nearest(view) == env && env.Keys <= Scope(above).Keys && WindowHolds(mode, view, start)
  }

  /** Above the stack `base` the element has pushed `added`, bindings of its own scope, and `list` is what it
      has to print so far. */
  ghost predicate Collects(path: Path, base: seq<Ns>, added: seq<Ns>, list: seq<Ns>) {
    && (forall p :: p in Nearest(added) ==> p in Scope(path) && Nearest(added)[p] == Scope(path)[p])
    && NsLists(list, Missing(Nearest(added), Nearest(base)))
  }

  ghost predicate Binds(path: Path, ns: Ns) {
    ns.prefix in Scope(path) && Scope(path)[ns.prefix] == ns.href
  }

  /** The windowed search, asked for a windowed prefix, tells whether the binding is in force. */
  lemma WindowSuffices(mode: Mode, base: seq<Ns>, added: seq<Ns>, start: nat, ns: Ns)
    requires start <= |base| && WindowHolds(mode, base, start) && Windowed(mode, ns.prefix)
    ensures WindowFound(base + added, start, ns)
         == InForce(Nearest(base) + Nearest(added), ns.prefix, ns.href)
  {
    var s := SearchStart(start, ns);
    NearestFrom(base, added, s);
    if s == start {
      WindowAgrees(mode, base, start, ns.prefix);
    } else {
      assert base[0..] == base;
    }
  }

  lemma NearestFrom(base: seq<Ns>, added: seq<Ns>, s: nat)
    requires s <= |base|
    ensures Nearest((base + added)[s..]) == Nearest(base[s..]) + Nearest(added)
  {
    assert (base + added)[s..] == base[s..] + added;
    NearestAppend(base[s..], added);
  }

  /** Inside the window a windowed prefix has the nearest entry of the whole stack. */
  lemma WindowAgrees(mode: Mode, base: seq<Ns>, start: nat, p: string)
    requires start <= |base| && WindowHolds(mode, base, start) && Windowed(mode, p)
    ensures p in Nearest(base[start..]) <==> p in Nearest(base)
    ensures p in Nearest(base) ==> Nearest(base[start..])[p] == Nearest(base)[p]
  {
    NearestAppend(base[..start], base[start..]);
    assert base[..start] + base[start..] == base;
  }

  lemma CollectNext(path: Path, base: seq<Ns>, added: seq<Ns>, list: seq<Ns>, ns: Ns)
    requires Collects(path, base, added, list) && Binds(path, ns)
    ensures Collects(path, base, added + [ns],
              if InForce(Nearest(base) + Nearest(added), ns.prefix, ns.href) then list
              else Inserted(list, ns, NsCompare))
  {
    CollectStep(list, Nearest(added), Nearest(base), ns);
    NearestPush(added, ns);
  }

  class C14NCtx {
    const mode: Mode
    const rendered: VisibleNsStack
    var buf: seq<Event>

    constructor (mode: Mode)
      ensures this.mode == mode && buf == []
      ensures rendered.Valid() && rendered.View() == [] && rendered.nsPrevStart == rendered.nsPrevEnd == 0
      ensures fresh(rendered.Repr())
    {
      this.mode := mode;
      rendered := new VisibleNsStack();
      buf := [];
    }

    /** The stack records the output ancestors: its nearest entries are the bindings in force, and the window
        belongs to the nearest output ancestor. */
    ghost predicate InStep(above: Path, env: Env)
      requires rendered.Valid()
      reads rendered, rendered.Repr()
    {
      && rendered.nsPrevEnd == rendered.nsCurEnd
      && Tracks(mode, above, env, rendered.View(), rendered.nsPrevStart)
      && (mode.Exclusive? ==> AllSeen(rendered.View(), rendered.Nodes()))
    }

    /** The element may be rendered: the assumptions of the meaning theorem hold at this point of the walk. */
    ghost predicate Ready(path: Path, env: Env)
      requires rendered.Valid()
      reads rendered, rendered.Repr()
    {
      path != [] && Consistent(path) && SelectionOk(path) && InStep(path[1..], env)
    }

    /** A windowed search, a push if the element is visible, and an insertion into the list of declarations to
        print: the step that both namespace axes share. */
    method RenderWindowed(ns: Ns, cur: Node, visible: bool, list: seq<Ns>) returns (r: seq<Ns>)
      requires rendered.Valid()
      modifies rendered.Repr()
      ensures rendered.Valid() && fresh(rendered.Repr() - old(rendered.Repr()))
      ensures rendered.nsPrevStart == old(rendered.nsPrevStart) && rendered.nsPrevEnd == old(rendered.nsPrevEnd)
      ensures rendered.View() == old(rendered.View()) + (if visible then [ns] else [])
      ensures rendered.Nodes() == old(rendered.Nodes()) + (if visible then [cur] else [])
      ensures r == if WindowFound(old(rendered.View()), rendered.nsPrevStart, ns) then list
                   else Inserted(list, ns, NsCompare)
    {
      var already := rendered.Find(ns);
      if visible {
        rendered.Add(ns, cur);
      }
      r := list;
      if !already {
        r := ListInsert(list, ns, NsCompare);
      }
    }

    /** xmlListWalk with xmlC14NPrintNamespaces. */
    method PrintNamespaces(list: seq<Ns>)
      modifies this`buf
      ensures buf == old(buf) + DeclEvents(DeclsOf(list))
    {
      for i := 0 to |list|
        invariant buf == old(buf) + DeclEvents(DeclsOf(list))[..i]
      {
        buf := buf + [Xmlns(DeclOf(list[i]))];
      }
    }

    /** What the axis leaves behind for a ready element. */
    ghost predicate Rendered(path: Path, env: Env, base: seq<Ns>, before: seq<Event>)
      requires rendered.Valid() && path != [] && path[0].Element?
      reads this, rendered, rendered.Repr()
    {
      && (mode.Exclusive? ==> AllSeen(rendered.View(), rendered.Nodes()))
      && if path[0].visible then
           && base <= rendered.View()
           && Nearest(rendered.View()[|base|..]) == Needed(mode, path)
           && buf == before + DeclEvents(Listing(Missing(Needed(mode, path), env)))
         else
           rendered.View() == base && buf == before
    }

    /** One declaration: it counts if it is the one in scope, is not the xml prefix and is selected. */
    method RenderDeclaration(path: Path, visible: bool, ns: Ns, list0: seq<Ns>, empty0: bool,
                             ghost base: seq<Ns>, ghost added0: seq<Ns>)
      returns (list: seq<Ns>, hasEmptyNs: bool, ghost added: seq<Ns>)
      requires rendered.Valid() && path != [] && path[0].Element? && visible == path[0].visible
      requires rendered.View() == base + added0 && rendered.nsPrevStart <= |base|
      modifies rendered.Repr()
      ensures rendered.Valid() && fresh(rendered.Repr() - old(rendered.Repr()))
      ensures rendered.nsPrevStart == old(rendered.nsPrevStart) && rendered.nsPrevEnd == old(rendered.nsPrevEnd)
      ensures rendered.View() == base + added
      ensures Collected(list, hasEmptyNs, added)
           == CollectOne(path, base, rendered.nsPrevStart, ns, Collected(list0, empty0, added0))
    {
      list, hasEmptyNs, added := list0, empty0, added0;
      var tmp := SearchNs(path, ns.prefix);
      if tmp == Some(ns) && !IsXmlNs(ns) && NsVisible(ns, path[0]) {
        list := RenderWindowed(ns, path[0], visible, list);
        if visible {
          added := added + [ns];
        }
        if ns.prefix == "" {
          hasEmptyNs := true;
        }
      }
    }

    /** The inner loop of xmlC14NProcessNamespacesAxis: the declarations of one element on the path. */
    method CollectLevel(path: Path, visible: bool, defs: seq<Ns>, list0: seq<Ns>, empty0: bool,
                        ghost base: seq<Ns>, ghost added0: seq<Ns>)
      returns (list: seq<Ns>, hasEmptyNs: bool, ghost added: seq<Ns>)
      requires rendered.Valid() && path != [] && path[0].Element? && visible == path[0].visible
      requires rendered.View() == base + added0 && rendered.nsPrevStart <= |base|
      modifies rendered.Repr()
      ensures rendered.Valid() && fresh(rendered.Repr() - old(rendered.Repr()))
      ensures rendered.nsPrevStart == old(rendered.nsPrevStart) && rendered.nsPrevEnd == old(rendered.nsPrevEnd)
      ensures rendered.View() == base + added
      ensures Collected(list, hasEmptyNs, added)
           == CollectAll(path, base, rendered.nsPrevStart, defs, Collected(list0, empty0, added0))
    {
      list, hasEmptyNs, added := list0, empty0, added0;
      for j := 0 to |defs|
        invariant rendered.Valid() && fresh(rendered.Repr() - old(rendered.Repr()))
        invariant rendered.nsPrevStart == old(rendered.nsPrevStart) && rendered.nsPrevEnd == old(rendered.nsPrevEnd)
        invariant rendered.View() == base + added
        invariant CollectAll(path, base, rendered.nsPrevStart, defs, Collected(list0, empty0, added0))
               == CollectAll(path, base, rendered.nsPrevStart, defs[j..], Collected(list, hasEmptyNs, added))
      {
        assert defs[j..][1..] == defs[j + 1..];
        list, hasEmptyNs, added := RenderDeclaration(path, visible, defs[j], list, hasEmptyNs, base, added);
      }
    }

    /** The outer loop of xmlC14NProcessNamespacesAxis, from the element up to the root. */
    method CollectDeclarations(path: Path, visible: bool)
      returns (list: seq<Ns>, hasEmptyNs: bool, ghost added: seq<Ns>)
      requires rendered.Valid() && path != [] && path[0].Element? && visible == path[0].visible
      modifies rendered.Repr()
      ensures rendered.Valid() && fresh(rendered.Repr() - old(rendered.Repr()))
      ensures rendered.nsPrevStart == old(rendered.nsPrevStart) && rendered.nsPrevEnd == old(rendered.nsPrevEnd)
      ensures rendered.View() == old(rendered.View()) + added
      ensures Collected(list, hasEmptyNs, added)
           == CollectUp(path, old(rendered.View()), rendered.nsPrevStart, path, Collected([], false, []))
    {
      ghost var base := rendered.View();
      list, hasEmptyNs, added := [], false, [];
      for k := 0 to |path|
        invariant rendered.Valid() && fresh(rendered.Repr() - old(rendered.Repr()))
        invariant rendered.nsPrevStart == old(rendered.nsPrevStart) && rendered.nsPrevEnd == old(rendered.nsPrevEnd)
        invariant rendered.View() == base + added
        invariant CollectUp(path, base, rendered.nsPrevStart, path, Collected([], false, []))
               == CollectUp(path, base, rendered.nsPrevStart, path[k..], Collected(list, hasEmptyNs, added))
      {
        assert path[k..][1..] == path[k + 1..];
        list, hasEmptyNs, added := CollectLevel(path, visible, Defs(path[k]), list, hasEmptyNs, base, added);
      }
    }

    /** xmlC14NProcessNamespacesAxis. */
    method ProcessNamespacesAxis(path: Path, visible: bool, ghost env: Env)
      requires rendered.Valid() && path != [] && path[0].Element? && visible == path[0].visible
      requires mode.Inclusive?
      modifies this`buf, rendered.Repr()
      ensures rendered.Valid() && fresh(rendered.Repr() - old(rendered.Repr()))
      ensures rendered.nsPrevStart == old(rendered.nsPrevStart) && rendered.nsPrevEnd == old(rendered.nsPrevEnd)
      ensures old(rendered.View()) <= rendered.View()
      ensures old(Ready(path, env)) ==> Rendered(path, env, old(rendered.View()), old(buf))
    {
      ghost var ready, base := Ready(path, env), rendered.View();
      var list, hasEmptyNs;
      ghost var added;
      list, hasEmptyNs, added := CollectDeclarations(path, visible);
      if ready {
        InclusiveAxis(path, base, rendered.nsPrevStart);
        NearestAppend(base, added);
      }
      if visible && !hasEmptyNs {
        var found := rendered.Find(Ns(0, "", ""));
        if !found {
          PrintNamespaces([Ns(0, "", "")]);
        }
      }
      PrintNamespaces(list);
    }

    /** The search over the whole stack, an insertion into the list if `show` allows it, and a push: the step
        for a visibly used namespace. */
    method RenderUsed(ns: Ns, cur: Node, show: bool, push: bool, list: seq<Ns>) returns (r: seq<Ns>)
      requires rendered.Valid()
      modifies rendered.Repr()
      ensures rendered.Valid() && fresh(rendered.Repr() - old(rendered.Repr()))
      ensures rendered.nsPrevStart == old(rendered.nsPrevStart) && rendered.nsPrevEnd == old(rendered.nsPrevEnd)
      ensures rendered.View() == old(rendered.View()) + (if push then [ns] else [])
      ensures rendered.Nodes() == old(rendered.Nodes()) + (if push then [cur] else [])
      ensures r == if show && !ExcFound(old(rendered.View()), old(rendered.Nodes()), ns)
                   then Inserted(list, ns, NsCompare) else list
    {
      var already := rendered.ExcFind(ns);
      if push {
        rendered.Add(ns, cur);
      }
      r := list;
      if show && !already {
        r := ListInsert(list, ns, NsCompare);
      }
    }

    /** The element has pushed `added` above the stack `base` with its elements `nodes`. */
    ghost predicate Pushed(cur: Node, base: seq<Ns>, nodes: seq<Node>, added: seq<Ns>)
      requires rendered.Valid()
      reads rendered, rendered.Repr()
    {
      |base| == |nodes| && rendered.View() == base + added && rendered.Nodes() == nodes + On(cur, |added|)
    }

    /** One entry of the list of inclusive prefixes. */
    method RenderPrefix(path: Path, visible: bool, listed: string, list0: seq<Ns>, empty0: bool,
                        ghost base: seq<Ns>, ghost nodes: seq<Node>, ghost added0: seq<Ns>)
      returns (list: seq<Ns>, hasEmptyNs: bool, ghost added: seq<Ns>)
      requires rendered.Valid() && path != [] && path[0].Element? && visible == path[0].visible
      requires Pushed(path[0], base, nodes, added0) && rendered.nsPrevStart <= |base|
      modifies rendered.Repr()
      ensures rendered.Valid() && fresh(rendered.Repr() - old(rendered.Repr()))
      ensures rendered.nsPrevStart == old(rendered.nsPrevStart) && rendered.nsPrevEnd == old(rendered.nsPrevEnd)
      ensures Pushed(path[0], base, nodes, added)
      ensures Collected(list, hasEmptyNs, added)
           == CollectPrefix(path, base, rendered.nsPrevStart, listed, Collected(list0, empty0, added0))
    {
      list, hasEmptyNs, added := list0, empty0, added0;
      var ns := SearchNs(path, InclusivePrefix(listed));
      if ns.Some? && !IsXmlNs(ns.value) && NsVisible(ns.value, path[0]) {
        list := RenderWindowed(ns.value, path[0], visible, list);
        if visible {
          JoinPush(base, nodes, path[0], added, ns.value);
          added := added + [ns.value];
        }
        if ns.value.prefix == "" {
          hasEmptyNs := true;
        }
      }
    }

    /** The loop of xmlExcC14NProcessNamespacesAxis over the list of inclusive prefixes. */
    method CollectPrefixes(path: Path, visible: bool, prefixes: seq<string>)
      returns (list: seq<Ns>, hasEmptyNs: bool, defaultListed: bool, ghost added: seq<Ns>)
      requires rendered.Valid() && path != [] && path[0].Element? && visible == path[0].visible
      modifies rendered.Repr()
      ensures rendered.Valid() && fresh(rendered.Repr() - old(rendered.Repr()))
      ensures rendered.nsPrevStart == old(rendered.nsPrevStart) && rendered.nsPrevEnd == old(rendered.nsPrevEnd)
      ensures Pushed(path[0], old(rendered.View()), old(rendered.Nodes()), added)
      ensures defaultListed <==> exists s :: s in prefixes && InclusivePrefix(s) == ""
      ensures Collected(list, hasEmptyNs, added)
           == CollectListed(path, old(rendered.View()), rendered.nsPrevStart, prefixes, Collected([], false, []))
    {
      ghost var base, nodes := rendered.View(), rendered.Nodes();
      list, hasEmptyNs, defaultListed, added := [], false, false, [];
      for i := 0 to |prefixes|
        invariant rendered.Valid() && fresh(rendered.Repr() - old(rendered.Repr()))
        invariant rendered.nsPrevStart == old(rendered.nsPrevStart) && rendered.nsPrevEnd == old(rendered.nsPrevEnd)
        invariant Pushed(path[0], base, nodes, added)
        invariant defaultListed <==> exists s :: s in prefixes[..i] && InclusivePrefix(s) == ""
        invariant CollectListed(path, base, rendered.nsPrevStart, prefixes, Collected([], false, []))
               == CollectListed(path, base, rendered.nsPrevStart, prefixes[i..], Collected(list, hasEmptyNs, added))
      {
        assert prefixes[i..][1..] == prefixes[i + 1..] && prefixes[..i + 1] == prefixes[..i] + [prefixes[i]];
        if InclusivePrefix(prefixes[i]) == "" {
          defaultListed := true;
        }
        list, hasEmptyNs, added := RenderPrefix(path, visible, prefixes[i], list, hasEmptyNs, base, nodes, added);
      }
      assert prefixes[..|prefixes|] == prefixes;
    }

    /** The element's own namespace, or the default that its unprefixed name could pick up. */
    method CollectElementNs(path: Path, visible: bool, list0: seq<Ns>, empty0: bool,
                            ghost base: seq<Ns>, ghost nodes: seq<Node>, ghost added0: seq<Ns>)
      returns (list: seq<Ns>, hasEmptyNs: bool, ghost added: seq<Ns>)
      requires rendered.Valid() && path != [] && path[0].Element? && visible == path[0].visible
      requires Pushed(path[0], base, nodes, added0)
      modifies rendered.Repr()
      ensures rendered.Valid() && fresh(rendered.Repr() - old(rendered.Repr()))
      ensures rendered.nsPrevStart == old(rendered.nsPrevStart) && rendered.nsPrevEnd == old(rendered.nsPrevEnd)
      ensures Pushed(path[0], base, nodes, added)
      ensures Collected(list, hasEmptyNs, added)
           == CollectOwn(path, base, nodes, Collected(list0, empty0, added0))
    {
      list, hasEmptyNs, added := list0, empty0, added0;
      var ns := if path[0].ns.Some? then path[0].ns else SearchNs(path, "");
      if ns.Some? && !IsXmlNs(ns.value) {
        list := RenderUsed(ns.value, path[0], visible && NsVisible(ns.value, path[0]), visible, list);
        if visible {
          JoinPush(base, nodes, path[0], added, ns.value);
          added := added + [ns.value];
        }
        if ns.value.prefix == "" {
          hasEmptyNs := true;
        }
      }
    }

    /** The loop of xmlExcC14NProcessNamespacesAxis over the attributes. */
    method CollectAttrNs(path: Path, visible: bool, list0: seq<Ns>, empty0: bool,
                         ghost base: seq<Ns>, ghost nodes: seq<Node>, ghost added0: seq<Ns>)
      returns (list: seq<Ns>, hasEmptyNs: bool, usesEmptyNs: bool, ghost added: seq<Ns>)
      requires rendered.Valid() && path != [] && path[0].Element? && visible == path[0].visible
      requires Pushed(path[0], base, nodes, added0)
      modifies rendered.Repr()
      ensures rendered.Valid() && fresh(rendered.Repr() - old(rendered.Repr()))
      ensures rendered.nsPrevStart == old(rendered.nsPrevStart) && rendered.nsPrevEnd == old(rendered.nsPrevEnd)
      ensures Pushed(path[0], base, nodes, added)
      ensures Collected(list, hasEmptyNs, added)
           == CollectAttrs(path[0], base, nodes, path[0].attrs, Collected(list0, empty0, added0))
      ensures usesEmptyNs <==> exists a :: a in path[0].attrs && UsesEmpty(a)
    {
      list, hasEmptyNs, usesEmptyNs, added := list0, empty0, false, added0;
      var attrs := path[0].attrs;
      for i := 0 to |attrs|
        invariant rendered.Valid() && fresh(rendered.Repr() - old(rendered.Repr()))
        invariant rendered.nsPrevStart == old(rendered.nsPrevStart) && rendered.nsPrevEnd == old(rendered.nsPrevEnd)
        invariant Pushed(path[0], base, nodes, added)
        invariant CollectAttrs(path[0], base, nodes, attrs, Collected(list0, empty0, added0))
               == CollectAttrs(path[0], base, nodes, attrs[i..], Collected(list, hasEmptyNs, added))
        invariant usesEmptyNs <==> exists a :: a in attrs[..i] && UsesEmpty(a)
      {
        var attr := attrs[i];
        assert attrs[i..][1..] == attrs[i + 1..];
        UsesEmptyNext(attrs, i);
        if attr.ns.Some? && !IsXmlNs(attr.ns.value) && attr.visible {
          list := RenderUsed(attr.ns.value, path[0], visible, true, list);
          JoinPush(base, nodes, path[0], added, attr.ns.value);
          added := added + [attr.ns.value];
          if attr.ns.value.prefix == "" {
            hasEmptyNs := true;
          }
        } else if attr.ns.Some? && attr.ns.value.prefix == "" && attr.ns.value.href == "" {
          usesEmptyNs := true;
        }
      }
      assert attrs[..|attrs|] == attrs;
    }

    /** The inclusive list, the element's name and the attribute names, in this order. */
    method CollectNeeded(path: Path, visible: bool)
      returns (list: seq<Ns>, hasEmptyNs: bool, defaultListed: bool, usesEmptyNs: bool, ghost added: seq<Ns>)
      requires rendered.Valid() && path != [] && path[0].Element? && visible == path[0].visible
      requires mode.Exclusive?
      modifies rendered.Repr()
      ensures rendered.Valid() && fresh(rendered.Repr() - old(rendered.Repr()))
      ensures rendered.nsPrevStart == old(rendered.nsPrevStart) && rendered.nsPrevEnd == old(rendered.nsPrevEnd)
      ensures Pushed(path[0], old(rendered.View()), old(rendered.Nodes()), added)
      ensures Collected(list, hasEmptyNs, added)
           == ExcCollect(mode, path, old(rendered.View()), old(rendered.Nodes()), rendered.nsPrevStart)
      ensures defaultListed <==> OnInclusiveList(mode, "")
      ensures usesEmptyNs <==> path[0].ns.None? || exists a :: a in path[0].attrs && UsesEmpty(a)
    {
      ghost var base, nodes := rendered.View(), rendered.Nodes();
      list, hasEmptyNs, defaultListed, added := CollectPrefixes(path, visible, mode.prefixes);
      list, hasEmptyNs, added := CollectElementNs(path, visible, list, hasEmptyNs, base, nodes, added);
      list, hasEmptyNs, usesEmptyNs, added := CollectAttrNs(path, visible, list, hasEmptyNs, base, nodes, added);
      if path[0].ns.None? {
        usesEmptyNs := true;
      }
    }

    /** xmlExcC14NProcessNamespacesAxis. */
    method ExcProcessNamespacesAxis(path: Path, visible: bool, ghost env: Env)
      requires rendered.Valid() && path != [] && path[0].Element? && visible == path[0].visible
      requires mode.Exclusive?
      modifies this`buf, rendered.Repr()
      ensures rendered.Valid() && fresh(rendered.Repr() - old(rendered.Repr()))
      ensures rendered.nsPrevStart == old(rendered.nsPrevStart) && rendered.nsPrevEnd == old(rendered.nsPrevEnd)
      ensures old(rendered.View()) <= rendered.View()
      ensures old(Ready(path, env)) ==> Rendered(path, env, old(rendered.View()), old(buf))
    {
      ghost var ready, base, nodes := Ready(path, env), rendered.View(), rendered.Nodes();
      var list, hasEmptyNs, defaultListed, usesEmptyNs;
      ghost var added;
      list, hasEmptyNs, defaultListed, usesEmptyNs, added := CollectNeeded(path, visible);
      if ready {
        ExclusiveAxis(mode, path, base, nodes, rendered.nsPrevStart);
        DefaultInForce(mode, path, base, added, rendered.Nodes());
      }
      if visible && usesEmptyNs && !hasEmptyNs && !defaultListed {
        var found := rendered.ExcFind(Ns(0, "", ""));
        if !found {
          PrintNamespaces([Ns(0, "", "")]);
        }
      } else if visible && !hasEmptyNs && defaultListed {
        var found := rendered.Find(Ns(0, "", ""));
        if !found {
          PrintNamespaces([Ns(0, "", "")]);
        }
      }
      PrintNamespaces(list);
    }

    /** xmlListWalk with xmlC14NPrintAttrs. */
    method PrintAttrs(list: seq<Attr>)
      modifies this`buf
      ensures buf == old(buf) + AttrEvents(list)
    {
      for i := 0 to |list|
        invariant buf == old(buf) + AttrEvents(list)[..i]
      {
        var value := NormalizeString(list[i].value, ATTR);
        buf := buf + [Attribute(PrefixOf(list[i].ns), list[i].name, value)];
      }
    }

    /** xmlC14NProcessAttrsAxis. */
    method ProcessAttrsAxis(path: Path, visible: bool)
      requires path != [] && path[0].Element? && visible == path[0].visible
      modifies this`buf
      ensures buf == old(buf) + AttrEvents(AttrAxis(mode, path))
    {
      var attrs := path[0].attrs;
      var list: seq<Attr> := [];
      for i := 0 to |attrs|
        invariant AddVisible([], attrs) == AddVisible(list, attrs[i..]) && buf == old(buf)
      {
        assert attrs[i..][1..] == attrs[i + 1..];
        if attrs[i].visible {
          list := ListInsert(list, attrs[i], AttrCompare);
        }
      }
      if visible && mode.Inclusive? && |path| > 1 && !path[1].visible {
        list := InheritXmlAttrs(list, path[1..]);
      }
      PrintAttrs(list);
    }

    /** The loops over the ancestors' attributes in the xml namespace. */
    method InheritXmlAttrs(own: seq<Attr>, path: Path) returns (list: seq<Attr>)
      ensures list == AddInherited(own, path)
    {
      list := own;
      for k := 0 to |path|
        invariant AddInherited(own, path) == AddInherited(list, path[k..])
      {
        var attrs := Attrs(path[k]);
        assert path[k..][1..] == path[k + 1..];
        ghost var list0 := list;
        for i := 0 to |attrs|
          invariant AddXml(list0, attrs) == AddXml(list, attrs[i..])
        {
          assert attrs[i..][1..] == attrs[i + 1..];
          if IsXmlAttr(attrs[i]) {
            var found := ListSearch(list, attrs[i], AttrCompare);
            if !found {
              list := ListInsert(list, attrs[i], AttrCompare);
            }
          }
        }
      }
    }

    /** The namespace axis of either mode; a visible element's pushes become the window of its descendants. */
    method ProcessAxisAndShift(path: Path, visible: bool, ghost env: Env)
      requires rendered.Valid() && path != [] && path[0].Element? && visible == path[0].visible
      modifies this`buf, rendered.Repr()
      ensures rendered.Valid() && fresh(rendered.Repr() - old(rendered.Repr()))
      ensures old(rendered.View()) <= rendered.View()
      ensures old(Ready(path, env)) && visible ==>
        && InStep(path, env + Needed(mode, path))
        && buf == old(buf) + DeclEvents(Listing(Missing(Needed(mode, path), env)))
      ensures old(Ready(path, env)) && !visible ==> InStep(path, env) && buf == old(buf)
    {
      ghost var ready, base, start := Ready(path, env), rendered.View(), rendered.nsPrevStart;
      if mode.Inclusive? {
        ProcessNamespacesAxis(path, visible, env);
      } else {
        ExcProcessNamespacesAxis(path, visible, env);
      }
      if ready {
        AfterAxis(mode, path, base, rendered.View(), start);
      }
      if visible {
        rendered.Shift();
      }
    }

    /** The first half of xmlC14NProcessElementNode, up to the end of the start tag. */
    method WriteStartTag(path: Path, visible: bool, ghost env: Env)
      requires rendered.Valid() && path != [] && path[0].Element? && visible == path[0].visible
      modifies this`buf, rendered.Repr()
      ensures rendered.Valid() && fresh(rendered.Repr() - old(rendered.Repr()))
      ensures old(rendered.View()) <= rendered.View()
      ensures old(Ready(path, env)) && visible ==>
        InStep(path, env + Needed(mode, path)) && buf == old(buf) + StartTag(mode, path, env)
      ensures old(Ready(path, env)) && !visible ==> InStep(path, env) && buf == old(buf)
    {
      ghost var ready, before := Ready(path, env), buf;
      if ready && !visible { OmittedAxis(mode, path); }
      if visible {
        buf := buf + [Open(PrefixOf(path[0].ns), path[0].name)];
      }
      ProcessAxisAndShift(path, visible, env);
      if ready && visible {
        JoinTag(before, Open(PrefixOf(path[0].ns), path[0].name), DeclEvents(Listing(Missing(Needed(mode, path), env))),
                AttrEvents(AttrAxis(mode, path)));
      }
      ProcessAttrsAxis(path, visible);
      if visible {
        buf := buf + [Close];
      }
    }

    /** xmlC14NCheckForRelativeNamespaces. */
    method CheckForRelativeNamespaces(cur: Node) returns (ok: bool)
      requires cur.Element?
      ensures ok <==> AbsoluteDefs(cur)
    {
      for i := 0 to |cur.nsDef|
        invariant forall k :: 0 <= k < i ==> Absolute(cur.nsDef[k].href)
      {
        if !Absolute(cur.nsDef[i].href) {
          return false;
        }
      }
      return true;
    }

    /** xmlC14NProcessElementNode: a relative namespace URI is an error; else the cursors are saved, moved by the
        element, and put back at its end. */
    method ProcessElementNode(above: Path, node: Node, ghost env: Env) returns (ok: bool)
      requires rendered.Valid() && node.Element?
      modifies this`buf, rendered.Repr()
      ensures rendered.Valid() && fresh(rendered.Repr() - old(rendered.Repr()))
      ensures ok <==> Accepted(node)
      ensures ok ==> rendered.SameAs(old(rendered.nsPrevStart), old(rendered.nsPrevEnd), old(rendered.View()))
      ensures ok && old(InStep(above, env)) && Consistent(above) && Admissible(above, node) ==>
        InStep(above, env) && buf == old(buf) + Canon(mode, above, node, env)
      decreases node, 1
    {
      ok := CheckForRelativeNamespaces(node);
      if !ok {
        return;
      }
      var curEnd, prevStart, prevEnd := rendered.nsCurEnd, rendered.nsPrevStart, rendered.nsPrevEnd;
      ok := WriteElement(above, node, env);
      if !ok {
        return;
      }
      rendered.Restore(curEnd, prevStart, prevEnd);
    }

    /** The element between saving and restoring the cursors. */
    method WriteElement(above: Path, node: Node, ghost env: Env) returns (ok: bool)
      requires rendered.Valid() && node.Element?
      modifies this`buf, rendered.Repr()
      ensures rendered.Valid() && fresh(rendered.Repr() - old(rendered.Repr()))
      ensures ok <==> AcceptedList(node.children)
      ensures ok ==> old(rendered.View()) <= rendered.View()
      ensures ok && old(InStep(above, env)) && Consistent(above) && Admissible(above, node) ==>
        && (mode.Exclusive? ==> AllSeen(rendered.View(), rendered.Nodes()))
        && buf == old(buf) + Canon(mode, above, node, env)
      decreases node, 0
    {
      var path := [node] + above;
      assert path[1..] == above;
      ghost var before := buf;
      WriteStartTag(path, node.visible, env);
      ok := ProcessNodeList(path, node.children, if node.visible then env + Needed(mode, path) else env);
      if !ok {
        return;
      }
      if node.visible {
        ghost var e := End(PrefixOf(node.ns), node.name);
        ghost var content := CanonList(mode, path, node.children, env + Needed(mode, path));
        JoinElement(before, StartTag(mode, path, env), content, e);
        buf := buf + [End(PrefixOf(node.ns), node.name)];
      }
    }

    /** xmlC14NProcessNode for elements, text and CDATA sections. */
    method ProcessNode(above: Path, node: Node, ghost env: Env) returns (ok: bool)
      requires rendered.Valid()
      modifies this`buf, rendered.Repr()
      ensures rendered.Valid() && fresh(rendered.Repr() - old(rendered.Repr()))
      ensures ok <==> Accepted(node)
      ensures ok ==> rendered.SameAs(old(rendered.nsPrevStart), old(rendered.nsPrevEnd), old(rendered.View()))
      ensures ok && old(InStep(above, env)) && Consistent(above) && Admissible(above, node) ==>
        InStep(above, env) && buf == old(buf) + Canon(mode, above, node, env)
      decreases node, 2
    {
      ok := true;
      if node.Element? {
        ok := ProcessElementNode(above, node, env);
      } else if node.visible {
        var text := NormalizeString(node.content, TEXT);
        buf := buf + [Chars(text)];
      }
    }

    /** xmlC14NProcessNodeList: stops at the first error. */
    method ProcessNodeList(above: Path, nodes: seq<Node>, ghost env: Env) returns (ok: bool)
      requires rendered.Valid()
      modifies this`buf, rendered.Repr()
      ensures rendered.Valid() && fresh(rendered.Repr() - old(rendered.Repr()))
      ensures ok <==> AcceptedList(nodes)
      ensures ok ==> rendered.SameAs(old(rendered.nsPrevStart), old(rendered.nsPrevEnd), old(rendered.View()))
      ensures ok && old(InStep(above, env)) && Consistent(above) && AdmissibleList(above, nodes) ==>
        InStep(above, env) && buf == old(buf) + CanonList(mode, above, nodes, env)
      decreases nodes, 0
    {
      ghost var good := InStep(above, env) && Consistent(above) && AdmissibleList(above, nodes);
      ok := true;
      for i := 0 to |nodes|
        invariant rendered.Valid() && fresh(rendered.Repr() - old(rendered.Repr()))
        invariant rendered.SameAs(old(rendered.nsPrevStart), old(rendered.nsPrevEnd), old(rendered.View()))
        invariant AcceptedList(nodes) <==> AcceptedList(nodes[i..])
        invariant good ==> InStep(above, env) && AdmissibleList(above, nodes[i..])
        invariant good ==>
          old(buf) + CanonList(mode, above, nodes, env) == buf + CanonList(mode, above, nodes[i..], env)
      {
        NodesStep(mode, above, nodes, i, env, buf);
        var done := ProcessNode(above, nodes[i], env);
        if !done {
          return false;
        }
      }
    }

    /** The whole document: an error if an element declares a relative namespace URI; else, on admissible input, the
        buffer holds the canonical form. In each of its start tags declarations ascend by prefix and attributes by
        namespace and name. It reads back as the selected part of the input exactly if no URI in it has an ampersand,
        and then no declaration is redundant. */
    method ProcessDocument(nodes: seq<Node>) returns (ok: bool)
      requires rendered.Valid() && rendered.View() == [] && rendered.nsPrevStart == rendered.nsPrevEnd == 0 && buf == []
      modifies this`buf, rendered.Repr()
      ensures ok <==> AcceptedList(nodes)
      ensures ok && AdmissibleList([], nodes) ==>
        && buf == CanonList(mode, [], nodes, map[])
        && (Read(mode, buf, map[], []) == Some(InfosetList(mode, [], nodes)) <==> PrintsNoAmpersand(buf))
        && (PrintsNoAmpersand(buf) ==> NoneRedundant(buf, map[], []))
        && (AttrsDistinct(nodes) ==> Ascending(buf, []))
    {
      ok := ProcessNodeList([], nodes, map[]);
      if ok && AdmissibleList([], nodes) {
        AcceptedKeepsMeaning(mode, nodes);
        if AttrsDistinct(nodes) {
          CanonicalFormAscends(mode, nodes);
        }
      }
    }
  }

  lemma NodesStep(mode: Mode, above: Path, nodes: seq<Node>, i: nat, env: Env, before: seq<Event>)
    requires i < |nodes|
    ensures AcceptedList(nodes[i..]) <==> Accepted(nodes[i]) && AcceptedList(nodes[i + 1..])
    ensures AdmissibleList(above, nodes[i..]) <==> Admissible(above, nodes[i]) && AdmissibleList(above, nodes[i + 1..])
    ensures before + CanonList(mode, above, nodes[i..], env)
         == before + Canon(mode, above, nodes[i], env) + CanonList(mode, above, nodes[i + 1..], env)
  {
    assert nodes[i..][1..] == nodes[i + 1..] && nodes[i..][0] == nodes[i];
    Associative(before, Canon(mode, above, nodes[i], env), CanonList(mode, above, nodes[i + 1..], env));
  }

  lemma JoinTag<T>(a: seq<T>, x: T, b: seq<T>, c: seq<T>)
    ensures a + [x] + b + c == a + ([x] + b + c)
  {
  }

  lemma JoinElement<T>(a: seq<T>, b: seq<T>, c: seq<T>, x: T)
    ensures a + b + c + [x] == a + (b + c + [x])
  {
  }

  lemma NoElements<T>(s: seq<T>)
    ensures s == [] || s[0] in s
  {
  }

  /** After the axis of a visible element its pushes are the window of its descendants; an omitted element
      leaves stack and window to the nearest output ancestor. */
  lemma AfterAxis(mode: Mode, path: Path, base: seq<Ns>, view: seq<Ns>, start: nat)
    requires path != [] && Consistent(path) && SelectionOk(path) && start <= |base|
    requires Nearest(base).Keys <= Scope(path[1..]).Keys && WindowHolds(mode, base, start)
    requires base <= view && (if path[0].visible then Nearest(view[|base|..]) == Needed(mode, path) else view == base)
    ensures path[0].visible ==>
      && Nearest(view) == Nearest(base) + Needed(mode, path)
      && Nearest(view).Keys <= Scope(path).Keys && WindowHolds(mode, view, |base|)
    ensures !path[0].visible ==> Nearest(base).Keys <= Scope(path).Keys
  {
    ScopeGrows(path[0], path[1..]);
    assert [path[0]] + path[1..] == path;
    if path[0].visible {
      NearestAppend(base, view[|base|..]);
      assert base + view[|base|..] == view;
    }
  }

  /** An omitted element has no selected attribute. */
  lemma OmittedAxis(mode: Mode, path: Path)
    requires path != [] && path[0].Element? && !path[0].visible && SelectionOk(path)
    ensures AttrAxis(mode, path) == []
  {
    AddVisibleFrom([], path[0].attrs);
    NoElements(AddVisible([], path[0].attrs));
  }

  // ---------------------------------------------------------------- the inclusive axis, on values

  /** The state of the loops over the declarations. */
  datatype Collected = Collected(list: seq<Ns>, hasEmptyNs: bool, added: seq<Ns>)

  /** The declaration is the one in scope, not of the xml prefix, and selected. */
  predicate Shown(path: Path, ns: Ns)
    requires path != []
  {
    SearchNs(path, ns.prefix) == Some(ns) && !IsXmlNs(ns) && NsVisible(ns, path[0])
  }

  ghost function CollectOne(path: Path, base: seq<Ns>, start: nat, ns: Ns, st: Collected): Collected
    requires path != [] && path[0].Element? && start <= |base|
  {
    if !Shown(path, ns) then st
    else Collected(
      if WindowFound(base + st.added, start, ns) then st.list else Inserted(st.list, ns, NsCompare),
      st.hasEmptyNs || ns.prefix == "",
      if path[0].visible then st.added + [ns] else st.added)
  }

  ghost function CollectAll(path: Path, base: seq<Ns>, start: nat, defs: seq<Ns>, st: Collected): Collected
    requires path != [] && path[0].Element? && start <= |base|
    decreases |defs|
  {
    if defs == [] then st
    else CollectAll(path, base, start, defs[1..], CollectOne(path, base, start, defs[0], st))
  }

  ghost function CollectUp(path: Path, base: seq<Ns>, start: nat, up: Path, st: Collected): Collected
    requires path != [] && path[0].Element? && start <= |base|
    decreases |up|
  {
    if up == [] then st
    else CollectUp(path, base, start, up[1..], CollectAll(path, base, start, Defs(up[0]), st))
  }

  /** One prefix of the inclusive list. */
  ghost function CollectPrefix(path: Path, base: seq<Ns>, start: nat, listed: string, st: Collected): Collected
    requires path != [] && path[0].Element? && start <= |base|
  {
    var ns := SearchNs(path, InclusivePrefix(listed));
    if ns.None? || IsXmlNs(ns.value) || !NsVisible(ns.value, path[0]) then st
    else Collected(
      if WindowFound(base + st.added, start, ns.value) then st.list else Inserted(st.list, ns.value, NsCompare),
      st.hasEmptyNs || ns.value.prefix == "",
      if path[0].visible then st.added + [ns.value] else st.added)
  }

  ghost function CollectListed(path: Path, base: seq<Ns>, start: nat, prefixes: seq<string>, st: Collected): Collected
    requires path != [] && path[0].Element? && start <= |base|
    decreases |prefixes|
  {
    if prefixes == [] then st
    else CollectListed(path, base, start, prefixes[1..], CollectPrefix(path, base, start, prefixes[0], st))
  }

  /** What the loops rely on at a ready element. */
  ghost predicate AxisReady(path: Path, base: seq<Ns>, start: nat) {
    && path != [] && Consistent(path) && SelectionOk(path)
    && start <= |base| && WindowHolds(Inclusive, base, start)
  }

  /** With the declarations `defs` of one element and then those of `up` still to come: bindings of the scope
      have been pushed, and every other binding of the scope is still to come. */
  ghost predicate AxisSoFar(path: Path, base: seq<Ns>, st: Collected, defs: seq<Ns>, up: Path)
    requires path != [] && path[0].Element?
  {
    if path[0].visible then
      && Collects(path, base, st.added, st.list)
      && (st.hasEmptyNs <==> "" in Nearest(st.added))
      && forall p :: p in Scope(path) && p !in Nearest(st.added) ==>
           Declared(path, p) == (if FindDecl(defs, p).Some? then FindDecl(defs, p) else Declared(up, p))
    else
      st.added == [] && st.list == []
  }

  lemma AxisStep(path: Path, base: seq<Ns>, start: nat, st: Collected, defs: seq<Ns>, up: Path)
    requires AxisReady(path, base, start) && defs != [] && AxisSoFar(path, base, st, defs, up)
    ensures AxisSoFar(path, base, CollectOne(path, base, start, defs[0], st), defs[1..], up)
  {
    var ns := defs[0];
    if ns.prefix != "xml" { SearchIsNearest(path, ns.prefix, true); }
    if Shown(path, ns) && path[0].visible {
      WindowSuffices(Inclusive, base, st.added, start, ns);
      CollectNext(path, base, st.added, st.list, ns);
      NearestPush(st.added, ns);
    }
  }

  lemma {:induction false} AxisLevel(path: Path, base: seq<Ns>, start: nat, st: Collected, defs: seq<Ns>, up: Path)
    requires AxisReady(path, base, start) && AxisSoFar(path, base, st, defs, up)
    ensures AxisSoFar(path, base, CollectAll(path, base, start, defs, st), [], up)
    decreases |defs|
  {
    if defs != [] {
      AxisStep(path, base, start, st, defs, up);
      AxisLevel(path, base, start, CollectOne(path, base, start, defs[0], st), defs[1..], up);
    }
  }

  lemma {:induction false} AxisUp(path: Path, base: seq<Ns>, start: nat, st: Collected, up: Path)
    requires AxisReady(path, base, start) && AxisSoFar(path, base, st, [], up)
    ensures AxisSoFar(path, base, CollectUp(path, base, start, up, st), [], [])
    decreases |up|
  {
    if up != [] {
      assert AxisSoFar(path, base, st, Defs(up[0]), up[1..]);
      AxisLevel(path, base, start, st, Defs(up[0]), up[1..]);
      AxisUp(path, base, start, CollectAll(path, base, start, Defs(up[0]), st), up[1..]);
    }
  }

  /** The loops push exactly the scope of the element and list exactly what is missing of it. */
  lemma InclusiveAxis(path: Path, base: seq<Ns>, start: nat)
    requires AxisReady(path, base, start)
    ensures
      var st := CollectUp(path, base, start, path, Collected([], false, []));
      if path[0].visible then
        && Nearest(st.added) == Needed(Inclusive, path)
        && DeclsOf(st.list) == Listing(Missing(Needed(Inclusive, path), Nearest(base)))
        && (st.hasEmptyNs <==> "" in Scope(path))
      else
        st.added == [] && st.list == []
  {
    var st := CollectUp(path, base, start, path, Collected([], false, []));
    AxisUp(path, base, start, Collected([], false, []), path);
    if path[0].visible {
      assert Nearest(st.added) == Needed(Inclusive, path);
      ListsDecls(st.list, Missing(Nearest(st.added), Nearest(base)));
    }
  }

  // ---------------------------------------------------------------- the exclusive axis, on values

  function OwnNs(path: Path): Option<Ns>
    requires path != [] && path[0].Element?
  {
    if path[0].ns.Some? then path[0].ns else SearchNs(path, "")
  }

  /** The element that pushes, once for each push. */
  function On(cur: Node, n: nat): (r: seq<Node>)
    ensures |r| == n && forall i :: 0 <= i < n ==> r[i] == cur
  {
    seq(n, _ => cur)
  }

  lemma JoinPush(base: seq<Ns>, nodes: seq<Node>, cur: Node, added: seq<Ns>, ns: Ns)
    ensures base + added + [ns] == base + (added + [ns])
    ensures nodes + On(cur, |added|) + [cur] == nodes + On(cur, |added + [ns]|)
  {
  }

  /** One visibly used namespace: it is listed if `show` allows it and the search does not find it. */
  ghost function CollectUsed(cur: Node, base: seq<Ns>, nodes: seq<Node>, ns: Option<Ns>, show: bool, push: bool,
                             st: Collected): Collected
    requires |base| == |nodes|
  {
    if ns.None? || IsXmlNs(ns.value) then st
    else Collected(
      if show && !ExcFound(base + st.added, nodes + On(cur, |st.added|), ns.value)
      then Inserted(st.list, ns.value, NsCompare) else st.list,
      st.hasEmptyNs || ns.value.prefix == "",
      if push then st.added + [ns.value] else st.added)
  }

  ghost function CollectOwn(path: Path, base: seq<Ns>, nodes: seq<Node>, st: Collected): Collected
    requires path != [] && path[0].Element? && |base| == |nodes|
  {
    var ns, visible := OwnNs(path), path[0].visible;
    CollectUsed(path[0], base, nodes, ns, visible && ns.Some? && NsVisible(ns.value, path[0]), visible, st)
  }

  ghost function CollectAttrs(cur: Node, base: seq<Ns>, nodes: seq<Node>, attrs: seq<Attr>, st: Collected): Collected
    requires |base| == |nodes|
    decreases |attrs|
  {
    if attrs == [] then st
    else
      var a := attrs[0];
      CollectAttrs(cur, base, nodes, attrs[1..],
                   if a.visible then CollectUsed(cur, base, nodes, a.ns, cur.visible, true, st) else st)
  }

  /** The attribute has the empty namespace for its namespace, which only a malformed tree has. */
  predicate UsesEmpty(a: Attr) {
    a.ns.Some? && !(!IsXmlNs(a.ns.value) && a.visible) && a.ns.value.prefix == "" && a.ns.value.href == ""
  }

  lemma UsesEmptyNext(attrs: seq<Attr>, i: nat)
    requires i < |attrs|
    ensures (exists a :: a in attrs[..i + 1] && UsesEmpty(a))
       <==> (exists a :: a in attrs[..i] && UsesEmpty(a)) || UsesEmpty(attrs[i])
  {
    assert attrs[..i + 1] == attrs[..i] + [attrs[i]];
    assert attrs[i] in attrs[..i + 1];
  }

  ghost function ExcCollect(mode: Mode, path: Path, base: seq<Ns>, nodes: seq<Node>, start: nat): Collected
    requires path != [] && path[0].Element? && start <= |base| == |nodes| && mode.Exclusive?
  {
    var st := CollectListed(path, base, start, mode.prefixes, Collected([], false, []));
    CollectAttrs(path[0], base, nodes, path[0].attrs, CollectOwn(path, base, nodes, st))
  }

  ghost predicate ExcReady(mode: Mode, path: Path, base: seq<Ns>, nodes: seq<Node>, start: nat) {
    && mode.Exclusive? && path != [] && Consistent(path) && SelectionOk(path)
    && start <= |base| == |nodes| && WindowHolds(mode, base, start) && AllSeen(base, nodes)
  }

  /** Only needed bindings have been pushed, all of them visible, and the list holds what is missing of them. */
  ghost predicate ExcSoFar(mode: Mode, path: Path, base: seq<Ns>, st: Collected)
    requires path != [] && path[0].Element?
  {
    && Collects(path, base, st.added, st.list)
    && (st.hasEmptyNs <==> "" in Nearest(st.added))
    && (forall p :: p in Nearest(st.added) ==> p in Needed(mode, path))
    && (forall i :: 0 <= i < |st.added| ==> NsVisible(st.added[i], path[0]))
  }

  /** A reference of a consistent element is a binding of its scope, unless it is the xml prefix. */
  lemma RefBinds(mode: Mode, path: Path, ns: Ns)
    requires path != [] && path[0].Element? && SelectionOk(path) && path[0].visible && RefOk(path, ns)
    ensures if IsXmlNs(ns) then ns.prefix == "xml" else Binds(path, ns) && NsVisible(ns, path[0])
  {
  }

  /** Above a visible stack the search tells whether the binding is in force. */
  lemma UsedFound(cur: Node, base: seq<Ns>, nodes: seq<Node>, added: seq<Ns>, ns: Ns)
    requires |base| == |nodes| && AllSeen(base, nodes)
    requires forall i :: 0 <= i < |added| ==> NsVisible(added[i], cur)
    ensures AllSeen(base + added, nodes + On(cur, |added|))
    ensures ExcFound(base + added, nodes + On(cur, |added|), ns)
         == InForce(Nearest(base) + Nearest(added), ns.prefix, ns.href)
  {
    ExcFoundSeen(base + added, nodes + On(cur, |added|), ns);
    NearestAppend(base, added);
  }

  /** Pushing a needed binding, and listing it unless it is in force. */
  lemma PushNeeded(mode: Mode, path: Path, base: seq<Ns>, st: Collected, ns: Ns, st': Collected)
    requires path != [] && path[0].Element? && ExcSoFar(mode, path, base, st)
    requires Binds(path, ns) && NsVisible(ns, path[0]) && IsNeeded(mode, path[0], ns.prefix)
    requires st'.list == if InForce(Nearest(base) + Nearest(st.added), ns.prefix, ns.href) then st.list
                         else Inserted(st.list, ns, NsCompare)
    requires st'.added == st.added + [ns] && st'.hasEmptyNs == (st.hasEmptyNs || ns.prefix == "")
    ensures ExcSoFar(mode, path, base, st')
    ensures Nearest(st'.added).Keys == Nearest(st.added).Keys + {ns.prefix}
  {
    CollectNext(path, base, st.added, st.list, ns);
    NearestPush(st.added, ns);
  }

  lemma UsedStep(mode: Mode, path: Path, base: seq<Ns>, nodes: seq<Node>, start: nat, st: Collected, ns: Option<Ns>)
    requires ExcReady(mode, path, base, nodes, start) && path[0].visible && ExcSoFar(mode, path, base, st)
    requires ns.Some? ==> RefOk(path, ns.value) && IsNeeded(mode, path[0], ns.value.prefix)
    ensures
      var st' := CollectUsed(path[0], base, nodes, ns, true, true, st);
      && ExcSoFar(mode, path, base, st')
      && Nearest(st'.added).Keys
         == Nearest(st.added).Keys + (if ns.Some? && ns.value.prefix != "xml" then {ns.value.prefix} else {})
  {
    if ns.Some? {
      RefBinds(mode, path, ns.value);
      if !IsXmlNs(ns.value) {
        UsedFound(path[0], base, nodes, st.added, ns.value);
        PushNeeded(mode, path, base, st, ns.value, CollectUsed(path[0], base, nodes, ns, true, true, st));
      }
    }
  }

  lemma ListedStep(mode: Mode, path: Path, base: seq<Ns>, nodes: seq<Node>, start: nat, st: Collected, listed: string)
    requires ExcReady(mode, path, base, nodes, start) && path[0].visible && ExcSoFar(mode, path, base, st)
    requires listed in mode.prefixes
    ensures ExcSoFar(mode, path, base, CollectPrefix(path, base, start, listed, st))
    ensures Nearest(CollectPrefix(path, base, start, listed, st).added).Keys
         == Nearest(st.added).Keys + (if InclusivePrefix(listed) in Scope(path) then {InclusivePrefix(listed)} else {})
  {
    var p := InclusivePrefix(listed);
    assert OnInclusiveList(mode, p);
    if p != "xml" {
      SearchIsNearest(path, p, true);
      var ns := Declared(path, p);
      if ns.Some? {
        WindowSuffices(mode, base, st.added, start, ns.value);
        PushNeeded(mode, path, base, st, ns.value, CollectPrefix(path, base, start, listed, st));
      }
    }
  }

  lemma {:induction false} ListedAll(mode: Mode, path: Path, base: seq<Ns>, nodes: seq<Node>, start: nat,
                                     st: Collected, prefixes: seq<string>, i: nat)
    requires ExcReady(mode, path, base, nodes, start) && path[0].visible && ExcSoFar(mode, path, base, st)
    requires i <= |mode.prefixes| && prefixes == mode.prefixes[i..]
    ensures
      var st' := CollectListed(path, base, start, prefixes, st);
      && ExcSoFar(mode, path, base, st')
      && Nearest(st.added).Keys <= Nearest(st'.added).Keys
      && (forall j :: i <= j < |mode.prefixes| && InclusivePrefix(mode.prefixes[j]) in Scope(path) ==>
            InclusivePrefix(mode.prefixes[j]) in Nearest(st'.added).Keys)
    decreases |prefixes|
  {
    if prefixes != [] {
      ListedStep(mode, path, base, nodes, start, st, prefixes[0]);
      var st' := CollectPrefix(path, base, start, prefixes[0], st);
      ListedAll(mode, path, base, nodes, start, st', prefixes[1..], i + 1);
    }
  }

  lemma {:induction false} AttrsAll(mode: Mode, path: Path, base: seq<Ns>, nodes: seq<Node>, start: nat,
                                    st: Collected, attrs: seq<Attr>, i: nat)
    requires ExcReady(mode, path, base, nodes, start) && path[0].visible && ExcSoFar(mode, path, base, st)
    requires i <= |path[0].attrs| && attrs == path[0].attrs[i..]
    ensures
      var st' := CollectAttrs(path[0], base, nodes, attrs, st);
      && ExcSoFar(mode, path, base, st')
      && Nearest(st.added).Keys <= Nearest(st'.added).Keys
      && (forall j :: i <= j < |path[0].attrs| ==> AttrPushed(path[0].attrs[j], Nearest(st'.added)))
    decreases |attrs|
  {
    if attrs != [] {
      var a := attrs[0];
      assert a == path[0].attrs[i] && a in path[0].attrs;
      if a.visible {
        if a.ns.Some? { assert VisiblyUsed(path[0], a.ns.value.prefix); }
        UsedStep(mode, path, base, nodes, start, st, a.ns);
        AttrsAll(mode, path, base, nodes, start, CollectUsed(path[0], base, nodes, a.ns, true, true, st),
                 attrs[1..], i + 1);
      } else {
        AttrsAll(mode, path, base, nodes, start, st, attrs[1..], i + 1);
      }
    }
  }

  predicate AttrPushed(a: Attr, pushed: Env) {
    a.visible && a.ns.Some? && a.ns.value.prefix != "xml" ==> a.ns.value.prefix in pushed
  }

  /** At an omitted element no binding is listed or pushed. */
  lemma {:induction false} ListedOmitted(path: Path, base: seq<Ns>, start: nat, st: Collected, prefixes: seq<string>)
    requires path != [] && Consistent(path) && start <= |base|
    requires forall p :: p in Scope(path) ==> p !in path[0].nsVisible
    ensures CollectListed(path, base, start, prefixes, st) == st
    decreases |prefixes|
  {
    if prefixes != [] {
      if InclusivePrefix(prefixes[0]) != "xml" { SearchIsNearest(path, InclusivePrefix(prefixes[0]), true); }
      ListedOmitted(path, base, start, st, prefixes[1..]);
    }
  }

  lemma {:induction false} AttrsOmitted(cur: Node, base: seq<Ns>, nodes: seq<Node>, attrs: seq<Attr>, st: Collected)
    requires |base| == |nodes| && forall a :: a in attrs ==> !a.visible
    ensures CollectAttrs(cur, base, nodes, attrs, st) == st
    decreases |attrs|
  {
    if attrs != [] {
      AttrsOmitted(cur, base, nodes, attrs[1..], st);
    }
  }

  /** For every selection that leaves each element with its own namespace nodes and attributes: the three parts push
      exactly the needed bindings and list exactly what is missing of them, and at an omitted element nothing. */
  lemma ExclusiveAxis(mode: Mode, path: Path, base: seq<Ns>, nodes: seq<Node>, start: nat)
    requires ExcReady(mode, path, base, nodes, start)
    ensures
      var st := ExcCollect(mode, path, base, nodes, start);
      && AllSeen(base + st.added, nodes + On(path[0], |st.added|))
      && if path[0].visible then
           && Nearest(st.added) == Needed(mode, path)
           && DeclsOf(st.list) == Listing(Missing(Needed(mode, path), Nearest(base)))
           && (st.hasEmptyNs <==> "" in Needed(mode, path))
         else
           st.added == [] && st.list == []
  {
    var none := Collected([], false, []);
    var st0 := CollectListed(path, base, start, mode.prefixes, none);
    var st1 := CollectOwn(path, base, nodes, st0);
    var st2 := CollectAttrs(path[0], base, nodes, path[0].attrs, st1);
    if path[0].visible {
      ListedAll(mode, path, base, nodes, start, none, mode.prefixes, 0);
      OwnStep(mode, path, base, nodes, start, st0);
      AttrsAll(mode, path, base, nodes, start, st1, path[0].attrs, 0);
      NeededPushed(mode, path, base, st0, st1, st2);
      ListsDecls(st2.list, Missing(Nearest(st2.added), Nearest(base)));
      UsedFound(path[0], base, nodes, st2.added, Ns(0, "", ""));
    } else {
      ListedOmitted(path, base, start, none, mode.prefixes);
      AttrsOmitted(path[0], base, nodes, path[0].attrs, st1);
    }
  }

  lemma OwnStep(mode: Mode, path: Path, base: seq<Ns>, nodes: seq<Node>, start: nat, st: Collected)
    requires ExcReady(mode, path, base, nodes, start) && path[0].visible && ExcSoFar(mode, path, base, st)
    ensures
      var st' := CollectOwn(path, base, nodes, st);
      && ExcSoFar(mode, path, base, st') && Nearest(st.added).Keys <= Nearest(st'.added).Keys
      && (OwnNs(path).Some? && OwnNs(path).value.prefix != "xml" ==> OwnNs(path).value.prefix in Nearest(st'.added))
    ensures path[0].ns.None? ==> OwnNs(path) == Declared(path, "")
  {
    var ns := OwnNs(path);
    if path[0].ns.None? { SearchIsNearest(path, "", true); }
    if ns.Some? {
      assert VisiblyUsed(path[0], ns.value.prefix);
      RefBinds(mode, path, ns.value);
    }
    UsedStep(mode, path, base, nodes, start, st, ns);
  }

  /** Where the empty prefix is needed but not bound, no search asks for xmlns="" to be printed. */
  lemma DefaultInForce(mode: Mode, path: Path, base: seq<Ns>, added: seq<Ns>, nodes: seq<Node>)
    requires path != [] && path[0].Element? && |base + added| == |nodes| && AllSeen(base + added, nodes)
    requires path[0].visible ==> Nearest(added) == Needed(mode, path)
    requires Nearest(base).Keys <= Scope(path[1..]).Keys
    ensures Nearest(base + added) == Nearest(base) + Nearest(added)
    ensures path[0].visible && "" !in Needed(mode, path) && IsNeeded(mode, path[0], "") ==>
              InForce(Nearest(base + added), "", "") && ExcFound(base + added, nodes, Ns(0, "", ""))
  {
    NearestAppend(base, added);
    ExcFoundSeen(base + added, nodes, Ns(0, "", ""));
    ScopeGrows(path[0], path[1..]);
    assert [path[0]] + path[1..] == path;
  }

  lemma NeededPushed(mode: Mode, path: Path, base: seq<Ns>, st0: Collected, st1: Collected, st2: Collected)
    requires mode.Exclusive? && path != [] && NsOk(path) && ExcSoFar(mode, path, base, st2)
    requires forall j :: 0 <= j < |mode.prefixes| && InclusivePrefix(mode.prefixes[j]) in Scope(path) ==>
               InclusivePrefix(mode.prefixes[j]) in Nearest(st0.added).Keys
    requires Nearest(st0.added).Keys <= Nearest(st1.added).Keys <= Nearest(st2.added).Keys
    requires OwnNs(path).Some? && OwnNs(path).value.prefix != "xml" ==> OwnNs(path).value.prefix in Nearest(st1.added)
    requires path[0].ns.None? ==> OwnNs(path) == Declared(path, "")
    requires forall j :: 0 <= j < |path[0].attrs| ==> AttrPushed(path[0].attrs[j], Nearest(st2.added))
    ensures Nearest(st2.added) == Needed(mode, path)
  {
    forall p | p in Needed(mode, path)
      ensures p in Nearest(st2.added)
    {
      if OnInclusiveList(mode, p) {
        var s :| s in mode.prefixes && InclusivePrefix(s) == p;
      } else {
        assert VisiblyUsed(path[0], p);
      }
    }
  }
}

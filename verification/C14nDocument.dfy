/** Whole documents as characters: the canonicaliser's text, read character by character, is the selected part of the
    document exactly if no namespace URI in it has an ampersand. */
module C14nDocument {
  import opened XmlString
  import opened XmlTree
  import opened Uri
  import opened C14nEscape
  import opened C14nSpec
  import opened C14nMeaning
  import opened C14nText
  import opened C14nSorted
  import C14n

  // ---------------------------------------------------------------- names in a document

  ghost predicate AttrOk(a: Attr) {
    && NcName(a.name) && PrefixOk(PrefixOf(a.ns)) && PrefixOf(a.ns) != "xmlns"
    && (PrefixOf(a.ns) == "" ==> a.name != "xmlns")
  }

  /** The names of an element are names, and its attributes are no declarations. */
  ghost predicate NamesOk(e: Node)
    requires e.Element?
  {
    && NcName(e.name) && PrefixOk(PrefixOf(e.ns))
    && (forall d :: d in e.nsDef ==> PrefixOk(d.prefix))
    && (forall a :: a in e.attrs ==> AttrOk(a))
  }

  ghost predicate AllNamesOk(nodes: seq<Node>)
    decreases nodes
  {
    nodes == [] || (AllNamesOk(nodes[1..])
                    && (nodes[0].Element? ==> NamesOk(nodes[0]) && AllNamesOk(nodes[0].children)))
  }

  /** Every element on the path is named and declares as it should. */
  ghost predicate PathOk(path: Path) {
    forall n :: n in path ==> n.Element? && NamesOk(n) && AbsoluteDefs(n)
  }

  lemma {:induction false} DeclaredOk(path: Path, p: string)
    requires PathOk(path) && Declared(path, p).Some?
    ensures PrefixOk(p) && '\"' !in Declared(path, p).value.href
  {
    assert path[0] in path;
    var found := FindDecl(Defs(path[0]), p);
    if found.Some? {
      assert Absolute(found.value.href);
      forall i | 0 <= i < |found.value.href|
        ensures found.value.href[i] != '\"'
      {
        AbsoluteChars(found.value.href, i);
      }
    } else {
      DeclaredOk(path[1..], p);
    }
  }

  lemma {:induction false} AddXmlOk(list: seq<Attr>, attrs: seq<Attr>)
    requires (forall a :: a in list ==> AttrOk(a)) && forall a :: a in attrs ==> AttrOk(a)
    ensures forall a :: a in AddXml(list, attrs) ==> AttrOk(a)
  {
    AddXmlFrom(list, attrs);
  }

  lemma {:induction false} AddInheritedOk(list: seq<Attr>, path: Path)
    requires PathOk(path) && forall a :: a in list ==> AttrOk(a)
    ensures forall a :: a in AddInherited(list, path) ==> AttrOk(a)
    decreases |path|
  {
    if path != [] {
      assert path[0] in path;
      AddXmlOk(list, Attrs(path[0]));
      AddInheritedOk(AddXml(list, Attrs(path[0])), path[1..]);
    }
  }

  lemma AxisOk(mode: Mode, path: Path)
    requires path != [] && PathOk(path)
    ensures forall a :: a in AttrAxis(mode, path) ==> AttrOk(a)
  {
    assert path[0] in path;
    AddVisibleFrom([], path[0].attrs);
    AddInheritedOk(AddVisible([], path[0].attrs), path[1..]);
  }

  // ---------------------------------------------------------------- the canonical form is legible

  lemma {:induction false} DeclsLegible(ds: seq<Decl>, rest: seq<Event>)
    requires (forall d :: d in ds ==> PrefixOk(d.prefix) && '\"' !in d.href) && Legible(rest, true)
    ensures Legible(DeclEvents(ds) + rest, true)
  {
    var evs := DeclEvents(ds) + rest;
    if ds == [] {
      assert evs == rest;
    } else {
      DeclsLegible(ds[1..], rest);
      assert evs[0] == Xmlns(ds[0]) && evs[1..] == DeclEvents(ds[1..]) + rest;
    }
  }

  lemma {:induction false} AttrsLegible(attrs: seq<Attr>, rest: seq<Event>)
    requires (forall a :: a in attrs ==> AttrOk(a)) && Legible(rest, true)
    ensures Legible(AttrEvents(attrs) + rest, true)
  {
    var evs := AttrEvents(attrs) + rest;
    if attrs == [] {
      assert evs == rest;
    } else {
      AttrsLegible(attrs[1..], rest);
      NoRawDelimiter(attrs[0].value, ATTR);
      assert attrs[0] in attrs;
      assert evs[1..] == AttrEvents(attrs[1..]) + rest;
    }
  }

  lemma TagLegible(mode: Mode, path: Path, env: Env, rest: seq<Event>)
    requires path != [] && PathOk(path) && Legible(rest, false)
    ensures Legible(StartTag(mode, path, env) + rest, false)
  {
    var e, ds, attrs := path[0], Listing(Missing(Needed(mode, path), env)), AttrAxis(mode, path);
    var open := Open(PrefixOf(e.ns), e.name);
    assert e in path;
    forall d | d in ds
      ensures PrefixOk(d.prefix) && '\"' !in d.href
    {
      DeclaredOk(path, d.prefix);
    }
    AxisOk(mode, path);
    assert ([Close] + rest)[1..] == rest;
    AttrsLegible(attrs, [Close] + rest);
    DeclsLegible(ds, AttrEvents(attrs) + ([Close] + rest));
    TagTail(open, DeclEvents(ds), AttrEvents(attrs), Close, rest);
  }

  // ---------------------------------------------------------------- text one character at a time

  /** A document whose text nodes hold one character each. */
  function Split(content: string, visible: bool): (r: seq<Node>)
    ensures |r| == |content| && forall i :: 0 <= i < |r| ==> r[i] == Text([content[i]], visible)
  {
    seq(|content|, i requires 0 <= i < |content| => Text([content[i]], visible))
  }

  function SplitNodes(nodes: seq<Node>): seq<Node>
    decreases nodes
  {
    if nodes == [] then []
    else
      var first :=
        if nodes[0].Text? then Split(nodes[0].content, nodes[0].visible)
        else [nodes[0].(children := SplitNodes(nodes[0].children))];
      first + SplitNodes(nodes[1..])
  }

  /** What a reader reports, its data character by character. */
  function DataOf(text: string): seq<Item> {
    seq(|text|, i requires 0 <= i < |text| => Data([text[i]]))
  }

  function Characters(items: seq<Item>): seq<Item> {
    if items == [] then []
    else (if items[0].Data? then DataOf(items[0].text) else [items[0]]) + Characters(items[1..])
  }

  lemma {:induction false} CharactersAppend(a: seq<Item>, b: seq<Item>)
    ensures Characters(a + b) == Characters(a) + Characters(b)
  {
    if a == [] {
      assert a + b == b;
    } else {
      assert (a + b)[1..] == a[1..] + b;
      CharactersAppend(a[1..], b);
    }
  }

  // ---------------------------------------------------------------- paths that differ below their elements

  predicate SameHead(a: Node, b: Node) {
    && a.Element? && b.Element? && a.name == b.name && a.ns == b.ns && a.nsDef == b.nsDef && a.attrs == b.attrs
    && a.visible == b.visible && a.nsVisible == b.nsVisible
  }

  ghost predicate SameHeads(p: Path, q: Path) {
    |p| == |q| && forall i :: 0 <= i < |p| ==> SameHead(p[i], q[i])
  }

  lemma {:induction false} DeclaredHeads(p: Path, q: Path, x: string)
    requires SameHeads(p, q)
    ensures Declared(p, x) == Declared(q, x)
  {
    if p != [] {
      assert SameHead(p[0], q[0]);
      DeclaredHeads(p[1..], q[1..], x);
    }
  }

  lemma ScopeHeads(p: Path, q: Path)
    requires SameHeads(p, q)
    ensures Scope(p) == Scope(q)
  {
    forall x
      ensures Declared(p, x) == Declared(q, x)
    {
      DeclaredHeads(p, q, x);
    }
  }

  lemma {:induction false} AddInheritedHeads(list: seq<Attr>, p: Path, q: Path)
    requires SameHeads(p, q)
    ensures AddInherited(list, p) == AddInherited(list, q)
    decreases |p|
  {
    if p != [] {
      assert SameHead(p[0], q[0]);
      AddInheritedHeads(AddXml(list, Attrs(p[0])), p[1..], q[1..]);
    }
  }

  /** Start tags do not depend on what is below the elements of the path. */
  lemma TagHeads(mode: Mode, p: Path, q: Path, env: Env)
    requires SameHeads(p, q) && p != []
    ensures p[0].Element? && q[0].Element?
    ensures Needed(mode, p) == Needed(mode, q) && AttrAxis(mode, p) == AttrAxis(mode, q) && Scope(p) == Scope(q)
    ensures StartTag(mode, p, env) == StartTag(mode, q, env) && TagItem(mode, p) == TagItem(mode, q)
  {
    assert SameHead(p[0], q[0]);
    ScopeHeads(p, q);
    NeededHeads(mode, p, q);
    if |p| > 1 {
      assert SameHead(p[1], q[1]);
      AddInheritedHeads(AddVisible([], p[0].attrs), p[1..], q[1..]);
    }
  }

  lemma NeededHeads(mode: Mode, p: Path, q: Path)
    requires p != [] && q != [] && SameHead(p[0], q[0]) && Scope(p) == Scope(q)
    ensures Needed(mode, p) == Needed(mode, q)
  {
    forall x
      ensures IsNeeded(mode, p[0], x) == IsNeeded(mode, q[0], x)
    {
      assert VisiblyUsed(p[0], x) == VisiblyUsed(q[0], x);
    }
  }

  lemma OkHeads(p: Path, q: Path)
    requires SameHeads(p, q) && p != []
    ensures p[0].Element? && q[0].Element?
    ensures NsOk(p) && SelectionOk(p) ==> NsOk(q) && SelectionOk(q)
  {
    assert SameHead(p[0], q[0]);
    ScopeHeads(p, q);
    forall x
      ensures Declared(p, x) == Declared(q, x)
    {
      DeclaredHeads(p, q, x);
    }
  }

  // ---------------------------------------------------------------- lists of siblings

  lemma {:induction false} CanonAppend(mode: Mode, p: Path, a: seq<Node>, b: seq<Node>, env: Env)
    ensures CanonList(mode, p, a + b, env) == CanonList(mode, p, a, env) + CanonList(mode, p, b, env)
    decreases |a|
  {
    if a == [] {
      assert a + b == b;
    } else {
      assert (a + b)[1..] == a[1..] + b;
      CanonAppend(mode, p, a[1..], b, env);
    }
  }

  lemma {:induction false} InfosetAppend(mode: Mode, p: Path, a: seq<Node>, b: seq<Node>)
    ensures InfosetList(mode, p, a + b) == InfosetList(mode, p, a) + InfosetList(mode, p, b)
    decreases |a|
  {
    if a == [] {
      assert a + b == b;
    } else {
      assert (a + b)[1..] == a[1..] + b;
      InfosetAppend(mode, p, a[1..], b);
    }
  }

  lemma {:induction false} AdmissibleAppend(p: Path, a: seq<Node>, b: seq<Node>)
    ensures AdmissibleList(p, a + b) <==> AdmissibleList(p, a) && AdmissibleList(p, b)
    decreases |a|
  {
    if a == [] {
      assert a + b == b;
    } else {
      assert (a + b)[1..] == a[1..] + b;
      AdmissibleAppend(p, a[1..], b);
    }
  }

  lemma {:induction false} PlainAppend(mode: Mode, p: Path, a: seq<Node>, b: seq<Node>)
    ensures NeedsPlainList(mode, p, a + b) <==> NeedsPlainList(mode, p, a) && NeedsPlainList(mode, p, b)
    decreases |a|
  {
    if a == [] {
      assert a + b == b;
    } else {
      assert (a + b)[1..] == a[1..] + b;
      PlainAppend(mode, p, a[1..], b);
    }
  }

  /** Text in pieces of one character is written as the text is. */
  lemma {:induction false} TextSpelled(mode: Mode, p: Path, content: string, visible: bool, env: Env)
    ensures
      var evs := CanonList(mode, p, Split(content, visible), env);
      Legible(evs, false) && Spell(evs) == if visible then Escape(content, TEXT) else ""
    decreases |content|
  {
    var nodes := Split(content, visible);
    if content != [] {
      assert nodes[1..] == Split(content[1..], visible);
      TextSpelled(mode, p, content[1..], visible, env);
      CharSplit(mode, p, content[0], visible, env);
      var rest := CanonList(mode, p, nodes[1..], env);
      if visible {
        assert CanonList(mode, p, nodes, env) == [Chars(Escaped(content[0], TEXT))] + rest;
        assert ([Chars(Escaped(content[0], TEXT))] + rest)[1..] == rest;
      } else {
        assert CanonList(mode, p, nodes, env) == [] + rest == rest;
      }
    }
  }

  /** And it means the same, character by character. */
  lemma {:induction false} TextMeant(mode: Mode, p: Path, content: string, visible: bool, env: Env)
    ensures
      var nodes := Split(content, visible);
      && InfosetList(mode, p, nodes) == (if visible then DataOf(content) else [])
      && AdmissibleList(p, nodes) && NeedsPlainList(mode, p, nodes)
    decreases |content|
  {
    var nodes := Split(content, visible);
    if content != [] {
      assert nodes[1..] == Split(content[1..], visible);
      TextMeant(mode, p, content[1..], visible, env);
      CharSplit(mode, p, content[0], visible, env);
      if visible {
        assert DataOf(content) == [Data([content[0]])] + DataOf(content[1..]);
      }
    }
  }

  lemma CharSplit(mode: Mode, p: Path, c: char, visible: bool, env: Env)
    ensures Canon(mode, p, Text([c], visible), env) == if visible then [Chars(Escaped(c, TEXT))] else []
    ensures Infoset(mode, p, Text([c], visible)) == if visible then [Data([c])] else []
  {
    assert [c][1..] == [];
    assert Escape([c], TEXT) == Escaped(c, TEXT) + [] == Escaped(c, TEXT);
  }

  // ---------------------------------------------------------------- documents whose text is split

  /** The element with its content split. */
  function SplitElement(e: Node): (r: Node)
    requires e.Element?
    ensures SameHead(e, r) && r.children == SplitNodes(e.children)
  {
    e.(children := SplitNodes(e.children))
  }

  /** One node and what follows it, with the text split. */
  lemma SplitFirst(nodes: seq<Node>)
    requires nodes != []
    ensures SplitNodes(nodes)
         == (if nodes[0].Text? then Split(nodes[0].content, nodes[0].visible) else [SplitElement(nodes[0])])
            + SplitNodes(nodes[1..])
  {
  }

  lemma OneCanon(mode: Mode, q: Path, node: Node, env: Env)
    ensures CanonList(mode, q, [node], env) == Canon(mode, q, node, env)
    ensures InfosetList(mode, q, [node]) == Infoset(mode, q, node)
    ensures AdmissibleList(q, [node]) == Admissible(q, node)
    ensures NeedsPlainList(mode, q, [node]) == NeedsPlain(mode, q, node)
  {
    assert [node][1..] == [];
  }

  /** Splitting text changes no character of the output. */
  lemma {:induction false} SplitSpelled(mode: Mode, p: Path, q: Path, nodes: seq<Node>, env: Env)
    requires SameHeads(p, q)
    ensures Spell(CanonList(mode, q, SplitNodes(nodes), env)) == Spell(CanonList(mode, p, nodes, env))
    decreases nodes
  {
    if nodes != [] {
      var node, rest := nodes[0], nodes[1..];
      SplitFirst(nodes);
      SplitSpelled(mode, p, q, rest, env);
      SpellAppend(Canon(mode, p, node, env), CanonList(mode, p, rest, env));
      if node.Text? {
        var one := Split(node.content, node.visible);
        TextSpelled(mode, q, node.content, node.visible, env);
        CanonAppend(mode, q, one, SplitNodes(rest), env);
        SpellAppend(CanonList(mode, q, one, env), CanonList(mode, q, SplitNodes(rest), env));
        TextPiece(mode, p, node, env);
      } else {
        var e := SplitElement(node);
        var p', q' := [node] + p, [e] + q;
        SplitSpelled(mode, p', q', node.children, if node.visible then env + Needed(mode, p') else env);
        ElementSpelled(mode, p, q, node, env);
        CanonAppend(mode, q, [e], SplitNodes(rest), env);
        OneCanon(mode, q, e, env);
        SpellAppend(Canon(mode, q, e, env), CanonList(mode, q, SplitNodes(rest), env));
      }
    }
  }

  lemma TextPiece(mode: Mode, p: Path, node: Node, env: Env)
    requires node.Text?
    ensures Spell(Canon(mode, p, node, env)) == if node.visible then Escape(node.content, TEXT) else ""
  {
    if node.visible {
      var t := Chars(Escape(node.content, TEXT));
      assert [t][1..] == [] && Piece(t) + "" == Piece(t);
    }
  }

  lemma ElementSpelled(mode: Mode, p: Path, q: Path, e: Node, env: Env)
    requires SameHeads(p, q) && e.Element?
    requires
      var p', q' := [e] + p, [SplitElement(e)] + q;
      var inside := if e.visible then env + Needed(mode, p') else env;
      Spell(CanonList(mode, q', SplitNodes(e.children), inside)) == Spell(CanonList(mode, p', e.children, inside))
    ensures Spell(Canon(mode, q, SplitElement(e), env)) == Spell(Canon(mode, p, e, env))
  {
    var p', q' := [e] + p, [SplitElement(e)] + q;
    assert SameHeads(p', q');
    TagHeads(mode, p', q', env);
    if e.visible {
      var tag, inside, end := StartTag(mode, p', env), env + Needed(mode, p'), [End(PrefixOf(e.ns), e.name)];
      var a, b := CanonList(mode, p', e.children, inside), CanonList(mode, q', SplitNodes(e.children), inside);
      SpellAppend(tag + a, end);
      SpellAppend(tag, a);
      SpellAppend(tag + b, end);
      SpellAppend(tag, b);
    }
  }

  /** Splitting text splits the data that the document means, and nothing else. */
  lemma {:induction false} SplitMeant(mode: Mode, p: Path, q: Path, nodes: seq<Node>)
    requires SameHeads(p, q)
    ensures InfosetList(mode, q, SplitNodes(nodes)) == Characters(InfosetList(mode, p, nodes))
    decreases nodes
  {
    if nodes != [] {
      var node, rest := nodes[0], nodes[1..];
      SplitFirst(nodes);
      SplitMeant(mode, p, q, rest);
      CharactersAppend(Infoset(mode, p, node), InfosetList(mode, p, rest));
      if node.Text? {
        TextMeant(mode, q, node.content, node.visible, map[]);
        InfosetAppend(mode, q, Split(node.content, node.visible), SplitNodes(rest));
        TextItems(mode, p, node);
      } else {
        var e := SplitElement(node);
        SplitMeant(mode, [node] + p, [e] + q, node.children);
        ElementMeant(mode, p, q, node);
        InfosetAppend(mode, q, [e], SplitNodes(rest));
        OneCanon(mode, q, e, map[]);
      }
    }
  }

  lemma TextItems(mode: Mode, p: Path, node: Node)
    requires node.Text?
    ensures Characters(Infoset(mode, p, node)) == if node.visible then DataOf(node.content) else []
  {
    if node.visible {
      assert [Data(node.content)][1..] == [] && DataOf(node.content) + [] == DataOf(node.content);
    }
  }

  lemma ElementMeant(mode: Mode, p: Path, q: Path, e: Node)
    requires SameHeads(p, q) && e.Element?
    requires InfosetList(mode, [SplitElement(e)] + q, SplitNodes(e.children))
          == Characters(InfosetList(mode, [e] + p, e.children))
    ensures Infoset(mode, q, SplitElement(e)) == Characters(Infoset(mode, p, e))
  {
    var p', q' := [e] + p, [SplitElement(e)] + q;
    assert SameHeads(p', q');
    TagHeads(mode, p', q', map[]);
    if e.visible {
      var content := InfosetList(mode, p', e.children);
      CharactersAppend([TagItem(mode, p')] + content, [Stop]);
      CharactersAppend([TagItem(mode, p')], content);
      OneItem(TagItem(mode, p'));
      OneItem(Stop);
    }
  }

  lemma OneItem(item: Item)
    requires !item.Data?
    ensures Characters([item]) == [item]
  {
    assert [item][1..] == [];
  }

  /** Splitting text keeps what the theorem assumes, and the condition on the URIs. */
  lemma {:induction false} SplitKeeps(mode: Mode, p: Path, q: Path, nodes: seq<Node>)
    requires SameHeads(p, q)
    ensures AdmissibleList(p, nodes) ==> AdmissibleList(q, SplitNodes(nodes))
    ensures NeedsPlainList(mode, q, SplitNodes(nodes)) <==> NeedsPlainList(mode, p, nodes)
    decreases nodes
  {
    if nodes != [] {
      var node, rest := nodes[0], nodes[1..];
      SplitFirst(nodes);
      SplitKeeps(mode, p, q, rest);
      if node.Text? {
        TextMeant(mode, q, node.content, node.visible, map[]);
        AdmissibleAppend(q, Split(node.content, node.visible), SplitNodes(rest));
        PlainAppend(mode, q, Split(node.content, node.visible), SplitNodes(rest));
      } else {
        var e := SplitElement(node);
        SplitKeeps(mode, [node] + p, [e] + q, node.children);
        ElementKeeps(mode, p, q, node);
        AdmissibleAppend(q, [e], SplitNodes(rest));
        PlainAppend(mode, q, [e], SplitNodes(rest));
        OneCanon(mode, q, e, map[]);
      }
    }
  }

  lemma ElementKeeps(mode: Mode, p: Path, q: Path, e: Node)
    requires SameHeads(p, q) && e.Element?
    requires
      var p', q' := [e] + p, [SplitElement(e)] + q;
      && (AdmissibleList(p', e.children) ==> AdmissibleList(q', SplitNodes(e.children)))
      && (NeedsPlainList(mode, q', SplitNodes(e.children)) <==> NeedsPlainList(mode, p', e.children))
    ensures Admissible(p, e) ==> Admissible(q, SplitElement(e))
    ensures NeedsPlain(mode, q, SplitElement(e)) <==> NeedsPlain(mode, p, e)
  {
    var p', q' := [e] + p, [SplitElement(e)] + q;
    assert SameHeads(p', q');
    TagHeads(mode, p', q', map[]);
    OkHeads(p', q');
  }

  /** The output of an accepted document with proper names is legible, once its text is split. */
  lemma {:induction false} SplitLegible(mode: Mode, q: Path, nodes: seq<Node>, env: Env)
    requires PathOk(q) && AllNamesOk(nodes) && AcceptedList(nodes)
    ensures Legible(CanonList(mode, q, SplitNodes(nodes), env), false)
    decreases nodes
  {
    if nodes != [] {
      var node, rest := nodes[0], nodes[1..];
      SplitFirst(nodes);
      SplitLegible(mode, q, rest, env);
      var tail := CanonList(mode, q, SplitNodes(rest), env);
      if node.Text? {
        var one := Split(node.content, node.visible);
        TextSpelled(mode, q, node.content, node.visible, env);
        CanonAppend(mode, q, one, SplitNodes(rest), env);
        LegibleAppend(CanonList(mode, q, one, env), tail, false);
      } else {
        var e := SplitElement(node);
        var q' := [e] + q;
        assert PathOk(q');
        SplitLegible(mode, q', node.children, if e.visible then env + Needed(mode, q') else env);
        ElementLegible(mode, q, e, env);
        CanonAppend(mode, q, [e], SplitNodes(rest), env);
        OneCanon(mode, q, e, env);
        LegibleAppend(Canon(mode, q, e, env), tail, false);
      }
    }
  }

  lemma ElementLegible(mode: Mode, q: Path, e: Node, env: Env)
    requires e.Element? && PathOk([e] + q)
    requires
      var q' := [e] + q;
      Legible(CanonList(mode, q', e.children, if e.visible then env + Needed(mode, q') else env), false)
    ensures Legible(Canon(mode, q, e, env), false)
  {
    var q' := [e] + q;
    if e.visible {
      var content, end := CanonList(mode, q', e.children, env + Needed(mode, q')), [End(PrefixOf(e.ns), e.name)];
      assert e in q' && end[1..] == [];
      LegibleAppend(content, end, false);
      TagLegible(mode, q', env, content + end);
      assert StartTag(mode, q', env) + content + end == StartTag(mode, q', env) + (content + end);
    }
  }

  // ---------------------------------------------------------------- the text of a document

  /** Of an accepted document, the text of the canonical form is read as the selected part of the document, character by
      character, if and only if no namespace URI in it has an ampersand. */
  lemma TextKeepsMeaning(mode: Mode, nodes: seq<Node>)
    requires AdmissibleList([], nodes) && AcceptedList(nodes) && AllNamesOk(nodes)
    ensures
      var evs := CanonList(mode, [], nodes, map[]);
      ReadText(mode, Spell(evs)) == Some(Characters(InfosetList(mode, [], nodes))) <==> PrintsNoAmpersand(evs)
  {
    var evs, split := CanonList(mode, [], nodes, map[]), SplitNodes(nodes);
    var pieces := CanonList(mode, [], split, map[]);
    SplitSpelled(mode, [], [], nodes, map[]);
    SplitLegible(mode, [], nodes, map[]);
    LexSpells(pieces, false);
    SplitKeeps(mode, [], [], nodes);
    SplitMeant(mode, [], [], nodes);
    CanonicalFormKeepsMeaning(mode, split);
    CanonicalFormKeepsMeaning(mode, nodes);
    PlainIsNoAmpersand(mode, nodes);
  }

  lemma {:induction false} SplitDistinct(nodes: seq<Node>)
    requires AttrsDistinct(nodes)
    ensures AttrsDistinct(SplitNodes(nodes))
    decreases nodes
  {
    if nodes != [] {
      SplitFirst(nodes);
      SplitDistinct(nodes[1..]);
      if nodes[0].Text? {
        DistinctBehindText(Split(nodes[0].content, nodes[0].visible), SplitNodes(nodes[1..]));
      } else {
        SplitDistinct(nodes[0].children);
        var all := [SplitElement(nodes[0])] + SplitNodes(nodes[1..]);
        assert all[1..] == SplitNodes(nodes[1..]);
      }
    }
  }

  lemma {:induction false} DistinctBehindText(texts: seq<Node>, rest: seq<Node>)
    requires (forall n :: n in texts ==> n.Text?) && AttrsDistinct(rest)
    ensures AttrsDistinct(texts + rest)
    decreases |texts|
  {
    if texts == [] {
      assert texts + rest == rest;
    } else {
      assert (texts + rest)[1..] == texts[1..] + rest && texts[0] in texts;
      DistinctBehindText(texts[1..], rest);
    }
  }

  /** As read from the text, declarations ascend by prefix in every start tag, and attributes by namespace and name. */
  lemma TextAscending(mode: Mode, nodes: seq<Node>)
    requires AdmissibleList([], nodes) && AcceptedList(nodes) && AllNamesOk(nodes) && AttrsDistinct(nodes)
    ensures
      var pieces := Lex(Spell(CanonList(mode, [], nodes, map[])), false);
      pieces.Some? && Ascending(pieces.value, [])
  {
    var split := SplitNodes(nodes);
    SplitSpelled(mode, [], [], nodes, map[]);
    SplitLegible(mode, [], nodes, map[]);
    LexSpells(CanonList(mode, [], split, map[]), false);
    SplitKeeps(mode, [], [], nodes);
    SplitDistinct(nodes);
    CanonicalFormAscends(mode, split);
  }

  /** xmlC14NExecute: an error for a relative namespace URI, or else the text of the document, its tags in order. */
  method Execute(mode: Mode, nodes: seq<Node>) returns (ok: bool, text: string)
    ensures ok <==> AcceptedList(nodes)
    ensures ok && AdmissibleList([], nodes) ==>
      var evs := CanonList(mode, [], nodes, map[]);
      && text == Spell(evs)
      && (AllNamesOk(nodes) ==>
            (ReadText(mode, text) == Some(Characters(InfosetList(mode, [], nodes))) <==> PrintsNoAmpersand(evs)))
    ensures ok && AdmissibleList([], nodes) && AllNamesOk(nodes) && AttrsDistinct(nodes) ==>
      var pieces := Lex(text, false);
      pieces.Some? && Ascending(pieces.value, [])
  {
    var ctx := new C14n.C14NCtx(mode);
    ok := ctx.ProcessDocument(nodes);
    text := Write(ctx.buf);
    if ok && AdmissibleList([], nodes) && AllNamesOk(nodes) {
      TextKeepsMeaning(mode, nodes);
      if AttrsDistinct(nodes) {
        TextAscending(mode, nodes);
      }
    }
  }

  method Write(evs: seq<Event>) returns (text: string)
    ensures text == Spell(evs)
  {
    text := "";
    for i := 0 to |evs|
      invariant text == Spell(evs[..i])
    {
      assert evs[..i + 1] == evs[..i] + [evs[i]];
      SpellAppend(evs[..i], [evs[i]]);
      assert Spell([evs[i]]) == Piece(evs[i]) + "" == Piece(evs[i]) by { assert [evs[i]][1..] == []; }
      text := text + Piece(evs[i]);
    }
    assert evs[..|evs|] == evs;
  }
}

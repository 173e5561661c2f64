/** Canonical output keeps its meaning: reading it back with a namespace-aware reader gives the names, attribute
    values, text and bindings of the selected part of the input tree, exactly if no namespace URI that the output
    needs has a character that an attribute value must escape. */
module C14nMeaning {
  import opened XmlString
  import opened SortedList
  import opened XmlTree
  import opened C14nEscape
  import opened C14nSpec
  import opened Uri

  datatype XAttr = XAttr(uri: Option<string>, name: string, value: string)

  /** What a namespace-aware reader reports. */
  datatype Item =
    | Start(uri: Option<string>, name: string, attrs: seq<XAttr>, bindings: Env)
    | Data(text: string)
    | Stop

  /** An open element of the reader: its qualified name and the bindings in force inside it. */
  datatype Frame = Frame(prefix: string, name: string, env: Env)

  // ---------------------------------------------------------------- the reader

  /** The bindings without the record of an empty default. */
  function Norm(env: Env): (r: Env)
  {
    map p | p in env && (p != "" || env[p] != "") :: env[p]
  }

  /** One declaration takes effect; xmlns="" removes the default (section 6.2 of Namespaces in XML). */
  function Bind(env: Env, d: Decl): Env {
    if d.prefix == "" && d.href == "" then env - {""} else env[d.prefix := d.href]
  }

  function BindAll(env: Env, ds: seq<Decl>): Env
    decreases |ds|
  {
    if ds == [] then env else BindAll(Bind(env, ds[0]), ds[1..])
  }

  function Resolve(env: Env, p: string): Option<string> {
    if p == "xml" then Some(XML_NAMESPACE) else if p in env then Some(env[p]) else None
  }

  /** Inclusive canonicalisation promises all bindings, the exclusive one those on the inclusive list. */
  ghost function Reported(mode: Mode, env: Env): Env {
    map p | p in env && (mode.Inclusive? || OnInclusiveList(mode, p)) :: env[p]
  }

  function TakeDecls(evs: seq<Event>): (r: (seq<Decl>, seq<Event>))
    ensures |r.1| <= |evs|
  {
    if evs != [] && evs[0].Xmlns? then
      var (ds, rest) := TakeDecls(evs[1..]);
      ([evs[0].decl] + ds, rest)
    else ([], evs)
  }

  function TakeAttrs(evs: seq<Event>): (r: (seq<Event>, seq<Event>))
    ensures |r.1| <= |evs|
    ensures forall i :: 0 <= i < |r.0| ==> r.0[i].Attribute?
  {
    if evs != [] && evs[0].Attribute? then
      var (attrs, rest) := TakeAttrs(evs[1..]);
      ([evs[0]] + attrs, rest)
    else ([], evs)
  }

  /** The values of declarations are attribute values like any other. */
  function ReadDecls(ds: seq<Decl>): Option<seq<Decl>> {
    if ds == [] then Some([])
    else
      var href, rest := Unescape(ds[0].href, ATTR), ReadDecls(ds[1..]);
      if href.None? || rest.None? then None else Some([Decl(ds[0].prefix, href.value)] + rest.value)
  }

  /** An unprefixed attribute has no namespace. */
  function ReadAttrs(evs: seq<Event>, env: Env): Option<seq<XAttr>>
    requires forall i :: 0 <= i < |evs| ==> evs[i].Attribute?
  {
    if evs == [] then Some([])
    else
      var e, value, rest := evs[0], Unescape(evs[0].value, ATTR), ReadAttrs(evs[1..], env);
      if value.None? || rest.None? then None
      else Some([XAttr(AttrUri(e.prefix, env), e.name, value.value)] + rest.value)
  }

  function AttrUri(prefix: string, env: Env): Option<string> {
    if prefix == "" then None else Resolve(env, prefix)
  }

  function Prepend(item: Item, r: Option<seq<Item>>): Option<seq<Item>> {
    match r case None => None case Some(items) => Some([item] + items)
  }

  /** Reads a piece of output inside the open elements `stack`; None when it is not well formed. */
  ghost function Read(mode: Mode, evs: seq<Event>, outer: Env, stack: seq<Frame>): Option<seq<Item>>
    decreases |evs|
  {
    if evs == [] then (if stack == [] then Some([]) else None)
    else match evs[0]
      case Chars(text) =>
        var data := Unescape(text, TEXT);
        if data.None? then None else Prepend(Data(data.value), Read(mode, evs[1..], outer, stack))
      case Open(prefix, name) =>
        var (ds, r1) := TakeDecls(evs[1..]);
        var (attrs, r2) := TakeAttrs(r1);
        var tag := ReadTag(mode, Inside(outer, stack), prefix, name, ds, attrs);
        if r2 == [] || r2[0] != Close || tag.None? then None
        else Prepend(tag.value.0, Read(mode, r2[1..], outer, stack + [Frame(prefix, name, tag.value.1)]))
      case End(prefix, name) =>
        if stack == [] || stack[|stack| - 1].prefix != prefix || stack[|stack| - 1].name != name then None
        else Prepend(Stop, Read(mode, evs[1..], outer, stack[..|stack| - 1]))
      case _ => None
  }

  /** What a start tag is read as, and the bindings that are in force behind it. */
  ghost function ReadTag(
      mode: Mode, env: Env, prefix: string, name: string, ds: seq<Decl>, attrs: seq<Event>): Option<(Item, Env)>
    requires forall i :: 0 <= i < |attrs| ==> attrs[i].Attribute?
  {
    var decls := ReadDecls(ds);
    if decls.None? then None
    else
      var inside := BindAll(env, decls.value);
      var read := ReadAttrs(attrs, inside);
      if read.None? then None
      else Some((Start(Resolve(inside, prefix), name, read.value, Reported(mode, inside)), inside))
  }

  function Inside(outer: Env, stack: seq<Frame>): Env {
    if stack == [] then outer else stack[|stack| - 1].env
  }

  // ---------------------------------------------------------------- what the input tree says

  /** The namespace of a name in the input; an empty default is no namespace. */
  function UriOf(ns: Option<Ns>): Option<string> {
    if ns.None? || (ns.value.prefix == "" && ns.value.href == "") then None else Some(ns.value.href)
  }

  function InputAttrs(attrs: seq<Attr>): (r: seq<XAttr>)
    ensures |r| == |attrs|
    ensures forall i :: 0 <= i < |r| ==> r[i] == XAttr(UriOf(attrs[i].ns), attrs[i].name, attrs[i].value)
  {
    seq(|attrs|, i requires 0 <= i < |attrs| => XAttr(UriOf(attrs[i].ns), attrs[i].name, attrs[i].value))
  }

  /** The selected part of the tree, with each element's bindings as declared in the input. */
  ghost function Infoset(mode: Mode, above: Path, node: Node): seq<Item>
    decreases node, 0
  {
    match node
    case Text(content, visible) => if visible then [Data(content)] else []
    case Element(name, ns, _, _, children, visible, _) =>
      var path := [node] + above;
      if visible then
        [Start(UriOf(ns), name, InputAttrs(AttrAxis(mode, path)), Reported(mode, Norm(Scope(path))))]
        + InfosetList(mode, path, children) + [Stop]
      else InfosetList(mode, path, children)
  }

  ghost function InfosetList(mode: Mode, above: Path, nodes: seq<Node>): seq<Item>
    decreases nodes, 0
  {
    if nodes == [] then [] else Infoset(mode, above, nodes[0]) + InfosetList(mode, above, nodes[1..])
  }

  // ---------------------------------------------------------------- the condition on namespace URIs

  ghost predicate PlainEnv(env: Env) {
    forall p :: p in env ==> Plain(env[p])
  }

  /** Every binding that an output element needs has a plain URI. */
  ghost predicate NeedsPlain(mode: Mode, above: Path, node: Node)
    decreases node, 0
  {
    match node
    case Text(_, _) => true
    case Element(_, _, _, _, children, visible, _) =>
      var path := [node] + above;
      (visible ==> PlainEnv(Needed(mode, path))) && NeedsPlainList(mode, path, children)
  }

  ghost predicate NeedsPlainList(mode: Mode, above: Path, nodes: seq<Node>)
    decreases nodes, 0
  {
    nodes == [] || (NeedsPlain(mode, above, nodes[0]) && NeedsPlainList(mode, above, nodes[1..]))
  }

  ghost predicate PrintsPlain(evs: seq<Event>) {
    forall d :: Xmlns(d) in evs ==> Plain(d.href)
  }

  lemma MissingPlain(needed: Env, env: Env)
    requires PlainEnv(env)
    ensures PlainEnv(Missing(needed, env)) <==> PlainEnv(needed)
  {
    forall p | p in needed && PlainEnv(Missing(needed, env))
      ensures Plain(needed[p])
    {
      assert p in Missing(needed, env) || (p in env && env[p] == needed[p]) || needed[p] == "";
    }
    forall p | p in Missing(needed, env) && PlainEnv(needed)
      ensures Plain(Missing(needed, env)[p])
    {
      assert p in needed;
    }
  }

  lemma TagPrintsPlain(mode: Mode, path: Path, env: Env)
    requires path != [] && path[0].Element? && PlainEnv(env)
    ensures PrintsPlain(StartTag(mode, path, env)) <==> PlainEnv(Needed(mode, path))
  {
    var needed := Needed(mode, path);
    MissingPlain(needed, env);
    forall p, href
      ensures Xmlns(Decl(p, href)) in StartTag(mode, path, env) <==>
                p in Missing(needed, env) && Missing(needed, env)[p] == href
    {
      TagDeclares(mode, path, env, p, href);
    }
    forall d | Xmlns(d) in StartTag(mode, path, env) && PlainEnv(Missing(needed, env))
      ensures Plain(d.href)
    {
      assert d == Decl(d.prefix, d.href);
    }
    forall p | p in Missing(needed, env) && PrintsPlain(StartTag(mode, path, env))
      ensures Plain(Missing(needed, env)[p])
    {
      assert Xmlns(Decl(p, Missing(needed, env)[p])) in StartTag(mode, path, env);
    }
  }

  lemma PrintsPlainAppend(a: seq<Event>, b: seq<Event>)
    ensures PrintsPlain(a + b) <==> PrintsPlain(a) && PrintsPlain(b)
  {
    assert PrintsPlain(a + b) ==> forall d :: Xmlns(d) in a || Xmlns(d) in b ==> Xmlns(d) in a + b;
  }

  /** The URIs that are needed are plain exactly if the printed ones are. */
  lemma {:induction false} NeededIsPrinted(mode: Mode, above: Path, node: Node, env: Env)
    requires PlainEnv(env)
    ensures PrintsPlain(Canon(mode, above, node, env)) <==> NeedsPlain(mode, above, node)
    decreases node, 0
  {
    if node.Element? {
      var path := [node] + above;
      if node.visible {
        TagPrintsPlain(mode, path, env);
        var inside := env + Needed(mode, path);
        var tag, content := StartTag(mode, path, env), CanonList(mode, path, node.children, inside);
        var end := [End(PrefixOf(node.ns), node.name)];
        PrintsPlainAppend(tag + content, end);
        PrintsPlainAppend(tag, content);
        if PlainEnv(Needed(mode, path)) {
          NeededIsPrintedList(mode, path, node.children, inside);
        }
      } else {
        NeededIsPrintedList(mode, path, node.children, env);
      }
    }
  }

  lemma {:induction false} NeededIsPrintedList(mode: Mode, above: Path, nodes: seq<Node>, env: Env)
    requires PlainEnv(env)
    ensures PrintsPlain(CanonList(mode, above, nodes, env)) <==> NeedsPlainList(mode, above, nodes)
    decreases nodes, 0
  {
    if nodes != [] {
      NeededIsPrinted(mode, above, nodes[0], env);
      NeededIsPrintedList(mode, above, nodes[1..], env);
      PrintsPlainAppend(Canon(mode, above, nodes[0], env), CanonList(mode, above, nodes[1..], env));
    }
  }

  // ---------------------------------------------------------------- items in front

  function PrependAll(items: seq<Item>, r: Option<seq<Item>>): Option<seq<Item>> {
    match r case None => None case Some(rest) => Some(items + rest)
  }

  lemma PrependTwice(a: seq<Item>, b: seq<Item>, r: Option<seq<Item>>)
    ensures PrependAll(a, PrependAll(b, r)) == PrependAll(a + b, r)
  {
    if r.Some? { assert a + (b + r.value) == a + b + r.value; }
  }

  lemma PrependNothing(r: Option<seq<Item>>)
    ensures PrependAll([], r) == r
  {
    if r.Some? { assert [] + r.value == r.value; }
  }

  lemma PrependAround(x: Item, b: seq<Item>, y: Item, r: Option<seq<Item>>)
    ensures Prepend(x, PrependAll(b, Prepend(y, r))) == PrependAll([x] + b + [y], r)
  {
    if r.Some? { assert [x] + (b + ([y] + r.value)) == [x] + b + [y] + r.value; }
  }

  // ---------------------------------------------------------------- declarations

  lemma {:induction false} TakeDeclsAll(ds: seq<Decl>, rest: seq<Event>)
    requires rest == [] || !rest[0].Xmlns?
    ensures TakeDecls(DeclEvents(ds) + rest) == (ds, rest)
  {
    var evs := DeclEvents(ds) + rest;
    if ds == [] {
      assert evs == rest;
    } else {
      assert evs[1..] == DeclEvents(ds[1..]) + rest;
      TakeDeclsAll(ds[1..], rest);
      assert [ds[0]] + ds[1..] == ds;
    }
  }

  /** Declarations of distinct prefixes take effect independently of their order. */
  lemma {:induction false} BindAllDistinct(env: Env, ds: seq<Decl>, p: string)
    requires Sorted(ds, DeclKey)
    ensures (forall d :: d in ds ==> d.prefix != p) ==>
              (p in BindAll(env, ds) <==> p in env) && (p in env ==> BindAll(env, ds)[p] == env[p])
    ensures forall d :: d in ds && d.prefix == p ==>
              (p in BindAll(env, ds) <==> p != "" || d.href != "")
              && (p in BindAll(env, ds) ==> BindAll(env, ds)[p] == d.href)
    decreases |ds|
  {
    if ds != [] {
      BindAllDistinct(Bind(env, ds[0]), ds[1..], p);
      assert ds == [ds[0]] + ds[1..];
      forall i | 0 < i < |ds|
        ensures ds[i].prefix != ds[0].prefix
      {
        assert KeyCmp(DeclKey(ds[0]), DeclKey(ds[i])) < 0;
      }
    }
  }

  /** Printing the missing bindings turns the bindings in force into the ones the element needs. */
  lemma MissingRestores(env: Env, needed: Env)
    ensures BindAll(Norm(env), Listing(Missing(needed, env))) == Norm(env + needed)
  {
    var ds := Listing(Missing(needed, env));
    var got := BindAll(Norm(env), ds);
    var want := Norm(env + needed);
    forall p
      ensures p in got <==> p in want
      ensures p in got ==> got[p] == want[p]
    {
      BindAllDistinct(Norm(env), ds, p);
      if p in Missing(needed, env) {
        assert Decl(p, needed[p]) in ds;
      }
    }
  }

  /** The declarations of a start tag are the needed bindings that are not in force. */
  lemma TagDeclares(mode: Mode, path: Path, env: Env, p: string, href: string)
    requires path != [] && path[0].Element?
    ensures Xmlns(Decl(p, href)) in StartTag(mode, path, env) <==>
              p in Needed(mode, path) && Needed(mode, path)[p] == href && !InForce(env, p, href)
  {
    var ds := Listing(Missing(Needed(mode, path), env));
    var e := Xmlns(Decl(p, href));
    InTag(e, Open(PrefixOf(path[0].ns), path[0].name), DeclEvents(ds), AttrEvents(AttrAxis(mode, path)), Close);
    if Decl(p, href) in ds {
      var i :| 0 <= i < |ds| && ds[i] == Decl(p, href);
      assert DeclEvents(ds)[i] == e;
    }
  }

  lemma InTag(e: Event, x: Event, a: seq<Event>, b: seq<Event>, y: Event)
    requires e != x && e != y && forall i :: 0 <= i < |b| ==> b[i] != e
    ensures e in [x] + a + b + [y] <==> e in a
  {
  }

  // ---------------------------------------------------------------- attributes

  ghost predicate AttrsRead(attrs: seq<Attr>, env: Env) {
    forall a | a in attrs && a.ns.Some? ::
      a.ns.value.prefix != "" && Resolve(env, a.ns.value.prefix) == Some(a.ns.value.href)
  }

  lemma {:induction false} TakeAttrsAll(attrs: seq<Attr>, rest: seq<Event>)
    requires rest == [] || !rest[0].Attribute?
    ensures TakeAttrs(AttrEvents(attrs) + rest) == (AttrEvents(attrs), rest)
  {
    var evs := AttrEvents(attrs) + rest;
    if attrs == [] {
      assert evs == rest;
    } else {
      assert evs[1..] == AttrEvents(attrs[1..]) + rest;
      TakeAttrsAll(attrs[1..], rest);
      assert [evs[0]] + AttrEvents(attrs[1..]) == AttrEvents(attrs);
    }
  }

  /** Written attributes are read with their own names and values, in the namespaces that their prefixes have. */
  lemma {:induction false} ReadAttrsAll(attrs: seq<Attr>, env: Env)
    ensures
      var r := ReadAttrs(AttrEvents(attrs), env);
      && r.Some? && |r.value| == |attrs|
      && forall i :: 0 <= i < |attrs| ==>
           r.value[i] == XAttr(AttrUri(PrefixOf(attrs[i].ns), env), attrs[i].name, attrs[i].value)
  {
    if attrs != [] {
      ReadAttrsAll(attrs[1..], env);
      UnescapeEscape(attrs[0].value, ATTR);
      assert AttrEvents(attrs)[1..] == AttrEvents(attrs[1..]);
    }
  }

  lemma AttrsReadBack(attrs: seq<Attr>, env: Env)
    requires AttrsRead(attrs, env)
    ensures ReadAttrs(AttrEvents(attrs), env) == Some(InputAttrs(attrs))
  {
    ReadAttrsAll(attrs, env);
    var r := ReadAttrs(AttrEvents(attrs), env).value;
    forall i | 0 <= i < |attrs|
      ensures r[i] == InputAttrs(attrs)[i]
    {
      assert attrs[i] in attrs;
    }
    assert r == InputAttrs(attrs);
  }

  lemma {:induction false} AddVisibleFrom(list: seq<Attr>, attrs: seq<Attr>)
    ensures forall a :: a in AddVisible(list, attrs) ==> a in list || (a in attrs && a.visible)
    ensures forall a :: a in list || (a in attrs && a.visible) ==> a in AddVisible(list, attrs)
    decreases |attrs|
  {
    if attrs != [] {
      InsertedElements(list, attrs[0], AttrCompare);
      AddVisibleFrom(if attrs[0].visible then Inserted(list, attrs[0], AttrCompare) else list, attrs[1..]);
      assert attrs == [attrs[0]] + attrs[1..];
    }
  }

  lemma {:induction false} AddXmlFrom(list: seq<Attr>, attrs: seq<Attr>)
    ensures forall a :: a in AddXml(list, attrs) ==> a in list || (a in attrs && IsXmlAttr(a))
    ensures forall a :: a in list ==> a in AddXml(list, attrs)
    decreases |attrs|
  {
    if attrs != [] {
      InsertedElements(list, attrs[0], AttrCompare);
      AddXmlFrom(
        if IsXmlAttr(attrs[0]) && !Searched(list, attrs[0], AttrCompare) then Inserted(list, attrs[0], AttrCompare)
        else list, attrs[1..]);
    }
  }

  lemma {:induction false} AddInheritedFrom(list: seq<Attr>, path: Path)
    requires Consistent(path)
    ensures forall a :: a in AddInherited(list, path) ==> a in list || a.ns == Some(XML_NS)
    ensures forall a :: a in list ==> a in AddInherited(list, path)
    decreases |path|
  {
    if path != [] {
      AddXmlFrom(list, Attrs(path[0]));
      AddInheritedFrom(AddXml(list, Attrs(path[0])), path[1..]);
    }
  }

  /** Every attribute of the axis resolves to its own namespace where the needed bindings are in force. */
  lemma AxisResolves(mode: Mode, path: Path, env: Env)
    requires Consistent(path) && path != [] && path[0].visible
    requires forall p :: p in Needed(mode, path) && p != "" ==> p in env && env[p] == Needed(mode, path)[p]
    ensures AttrsRead(AttrAxis(mode, path), env)
  {
    var own := AddVisible([], path[0].attrs);
    AddVisibleFrom([], path[0].attrs);
    AddInheritedFrom(own, path[1..]);
    forall a | a in AttrAxis(mode, path) && a.ns.Some?
      ensures a.ns.value.prefix != "" && Resolve(env, a.ns.value.prefix) == Some(a.ns.value.href)
    {
      if a.ns != Some(XML_NS) {
        assert a in path[0].attrs && a.visible;
        var p := a.ns.value.prefix;
        assert VisiblyUsed(path[0], p);
        assert p in Needed(mode, path);
      }
    }
  }

  lemma OwnAttrInAxis(mode: Mode, path: Path, a: Attr)
    requires Consistent(path) && path != [] && a in path[0].attrs && a.visible
    ensures a in AttrAxis(mode, path)
  {
    AddVisibleFrom([], path[0].attrs);
    AddInheritedFrom(AddVisible([], path[0].attrs), path[1..]);
  }

  // ---------------------------------------------------------------- declarations as read

  lemma {:induction false} ReadDeclsShape(ds: seq<Decl>)
    ensures
      var r := ReadDecls(ds);
      r.Some? ==>
        && |r.value| == |ds|
        && forall i :: 0 <= i < |ds| ==>
             r.value[i].prefix == ds[i].prefix && Unescape(ds[i].href, ATTR) == Some(r.value[i].href)
  {
    if ds != [] {
      ReadDeclsShape(ds[1..]);
    }
  }

  lemma {:induction false} PlainDeclsRead(ds: seq<Decl>)
    requires forall d :: d in ds ==> Plain(d.href)
    ensures ReadDecls(ds) == Some(ds)
  {
    if ds != [] {
      assert ds == [ds[0]] + ds[1..];
      PlainDeclsRead(ds[1..]);
      RawValueReads(ds[0].href);
    }
  }

  /** Where a needed binding is read with another URI, the start tag is read as something else than it means. */
  lemma WrongBinding(mode: Mode, path: Path, inside: Env, p: string, attrs: seq<XAttr>)
    requires path != [] && Consistent(path) && path[0].visible
    requires p in Needed(mode, path) && Needed(mode, path)[p] != ""
    requires p in inside && inside[p] != Needed(mode, path)[p]
    requires ReadAttrs(AttrEvents(AttrAxis(mode, path)), inside) == Some(attrs)
    ensures (Resolve(inside, PrefixOf(path[0].ns)), attrs, Reported(mode, inside))
         != (UriOf(path[0].ns), InputAttrs(AttrAxis(mode, path)), Reported(mode, Norm(Scope(path))))
  {
    var e, axis := path[0], AttrAxis(mode, path);
    if mode.Inclusive? || OnInclusiveList(mode, p) {
      assert p in Reported(mode, inside) && Reported(mode, inside)[p] == inside[p];
      assert p in Norm(Scope(path)) && Reported(mode, Norm(Scope(path)))[p] == Scope(path)[p];
    } else if p == PrefixOf(e.ns) {
      assert e.ns.Some? && UriOf(e.ns) == Some(Scope(path)[p]);
    } else {
      var a :| a in e.attrs && a.visible && a.ns.Some? && a.ns.value.prefix == p;
      OwnAttrInAxis(mode, path, a);
      var i :| 0 <= i < |axis| && axis[i] == a;
      ReadAttrsAll(axis, inside);
      assert attrs[i].uri == Some(inside[p]) && InputAttrs(axis)[i].uri == Some(Scope(path)[p]);
    }
  }

  /** A declaration whose value is not plain gives its prefix another URI. */
  lemma WrongDecl(env: Env, m: Env, d: Decl)
    requires d in Listing(m) && !Plain(d.href) && ReadDecls(Listing(m)).Some?
    ensures
      var inside := BindAll(env, ReadDecls(Listing(m)).value);
      d.href != "" && d.prefix in inside && inside[d.prefix] != d.href
  {
    var ds := Listing(m);
    var rs := ReadDecls(ds).value;
    ReadDeclsShape(ds);
    RawValueReads(d.href);
    var i :| 0 <= i < |ds| && ds[i] == d;
    KeysKept(ds, rs);
    BindAllDistinct(env, rs, d.prefix);
    assert rs[i] in rs;
  }

  /** A start tag with such a declaration is read as something else than it means. */
  lemma WrongTag(mode: Mode, path: Path, env: Env, d: Decl)
    requires path != [] && Consistent(path) && path[0].visible
    requires d in Listing(Missing(Needed(mode, path), env)) && !Plain(d.href)
    ensures
      var e, axis := path[0], AttrAxis(mode, path);
      var tag := ReadTag(mode, Norm(env), PrefixOf(e.ns), e.name, Listing(Missing(Needed(mode, path), env)),
                         AttrEvents(axis));
      tag.Some? ==> tag.value.0 != Start(UriOf(e.ns), e.name, InputAttrs(axis), Reported(mode, Norm(Scope(path))))
  {
    var m := Missing(Needed(mode, path), env);
    var decls := ReadDecls(Listing(m));
    if decls.Some? {
      WrongDecl(Norm(env), m, d);
      var inside := BindAll(Norm(env), decls.value);
      var attrs := AttrEvents(AttrAxis(mode, path));
      ReadAttrsAll(AttrAxis(mode, path), inside);
      WrongBinding(mode, path, inside, d.prefix, ReadAttrs(attrs, inside).value);
    }
  }

  lemma KeysKept(ds: seq<Decl>, rs: seq<Decl>)
    requires Sorted(ds, DeclKey) && |rs| == |ds| && forall i :: 0 <= i < |ds| ==> rs[i].prefix == ds[i].prefix
    ensures Sorted(rs, DeclKey)
  {
    forall i, j | 0 <= i < j < |rs|
      ensures KeyCmp(DeclKey(rs[i]), DeclKey(rs[j])) < 0
    {
      assert KeyCmp(DeclKey(ds[i]), DeclKey(ds[j])) < 0;
    }
  }

  // ---------------------------------------------------------------- start tags

  lemma TagTail<T>(x: T, a: seq<T>, b: seq<T>, y: T, rest: seq<T>)
    ensures ([x] + a + b + [y] + rest)[1..] == a + (b + ([y] + rest))
    ensures ([x] + a + b + [y] + rest)[0] == x
  {
  }

  /** The reader splits the start tag into its declarations and its attributes. */
  lemma TagSplits(mode: Mode, path: Path, env: Env, rest: seq<Event>)
    requires path != [] && path[0].Element?
    ensures
      var ds := Listing(Missing(Needed(mode, path), env));
      var attrs := AttrEvents(AttrAxis(mode, path));
      var evs := StartTag(mode, path, env) + rest;
      var tail := [Close] + rest;
      && evs[0] == Open(PrefixOf(path[0].ns), path[0].name)
      && TakeDecls(evs[1..]) == (ds, attrs + tail)
      && TakeAttrs(attrs + tail) == (attrs, tail)
      && tail[0] == Close && tail[1..] == rest
  {
    var ds := Listing(Missing(Needed(mode, path), env));
    var tail := [Close] + rest;
    var attrs := AttrAxis(mode, path);
    TagTail(Open(PrefixOf(path[0].ns), path[0].name), DeclEvents(ds), AttrEvents(attrs), Close, rest);
    TakeDeclsAll(ds, AttrEvents(attrs) + tail);
    TakeAttrsAll(attrs, tail);
  }

  /** The item that a start tag means. */
  ghost function TagItem(mode: Mode, path: Path): Item
    requires path != [] && path[0].Element?
  {
    Start(UriOf(path[0].ns), path[0].name, InputAttrs(AttrAxis(mode, path)), Reported(mode, Norm(Scope(path))))
  }

  /** How the reader takes the start tag of an element. */
  ghost function TagAsRead(mode: Mode, path: Path, env: Env): Option<(Item, Env)>
    requires path != [] && path[0].Element?
  {
    ReadTag(mode, Norm(env), PrefixOf(path[0].ns), path[0].name, Listing(Missing(Needed(mode, path), env)),
            AttrEvents(AttrAxis(mode, path)))
  }

  lemma StartTagIsRead(mode: Mode, path: Path, env: Env, rest: seq<Event>, outer: Env, stack: seq<Frame>)
    requires path != [] && path[0].Element? && Inside(outer, stack) == Norm(env)
    ensures
      var tag := TagAsRead(mode, path, env);
      Read(mode, StartTag(mode, path, env) + rest, outer, stack)
      == if tag.None? then None
         else Prepend(tag.value.0,
                      Read(mode, rest, outer, stack + [Frame(PrefixOf(path[0].ns), path[0].name, tag.value.1)]))
  {
    TagSplits(mode, path, env, rest);
  }

  /** A start tag reads back as the element's own name, attributes and bindings, and with the needed bindings in
      force, exactly if the declarations that it prints are plain. */
  lemma StartTagReads(mode: Mode, path: Path, env: Env)
    requires path != [] && Consistent(path) && path[0].visible && env.Keys <= Scope(path).Keys
    ensures
      var tag := TagAsRead(mode, path, env);
      if PlainEnv(Missing(Needed(mode, path), env))
      then tag == Some((TagItem(mode, path), Norm(env + Needed(mode, path))))
      else tag.Some? ==> tag.value.0 != TagItem(mode, path)
  {
    var needed := Needed(mode, path);
    var ds := Listing(Missing(needed, env));
    if PlainEnv(Missing(needed, env)) {
      PlainDeclsRead(ds);
      MissingRestores(env, needed);
      AxisResolves(mode, path, Norm(env + needed));
      AttrsReadBack(AttrAxis(mode, path), Norm(env + needed));
      ElementResolves(mode, path, env);
      ReportedAgree(mode, path, env);
    } else {
      var p :| p in Missing(needed, env) && !Plain(Missing(needed, env)[p]);
      assert Decl(p, Missing(needed, env)[p]) in ds;
      WrongTag(mode, path, env, Decl(p, Missing(needed, env)[p]));
    }
  }

  lemma ElementResolves(mode: Mode, path: Path, env: Env)
    requires path != [] && Consistent(path) && env.Keys <= Scope(path).Keys
    ensures Resolve(Norm(env + Needed(mode, path)), PrefixOf(path[0].ns)) == UriOf(path[0].ns)
  {
    var p := PrefixOf(path[0].ns);
    assert VisiblyUsed(path[0], p);
  }

  lemma ReportedAgree(mode: Mode, path: Path, env: Env)
    requires path != [] && path[0].Element? && env.Keys <= Scope(path).Keys
    ensures Reported(mode, Norm(env + Needed(mode, path))) == Reported(mode, Norm(Scope(path)))
  {
    var a := Reported(mode, Norm(env + Needed(mode, path)));
    var b := Reported(mode, Norm(Scope(path)));
    forall p
      ensures p in a <==> p in b
      ensures p in a ==> a[p] == b[p]
    {
      if p in Scope(path) && (mode.Inclusive? || OnInclusiveList(mode, p)) {
        assert p in Needed(mode, path);
      }
    }
  }

  // ---------------------------------------------------------------- plain output reads back

  /** The canonical form of a subtree that needs only plain URIs reads back as its selected part. */
  lemma {:induction false} CanonReads(mode: Mode, above: Path, node: Node, env: Env, rest: seq<Event>,
                                      outer: Env, stack: seq<Frame>)
    requires Consistent(above) && Admissible(above, node) && NeedsPlain(mode, above, node)
    requires env.Keys <= Scope(above).Keys && Inside(outer, stack) == Norm(env) && PlainEnv(env)
    ensures Read(mode, Canon(mode, above, node, env) + rest, outer, stack)
         == PrependAll(Infoset(mode, above, node), Read(mode, rest, outer, stack))
    decreases node, 0
  {
    if node.Text? {
      TextReads(mode, above, node, env, rest, outer, stack);
    } else {
      var path := [node] + above;
      assert path[1..] == above;
      ScopeGrows(node, above);
      if node.visible {
        var inside := env + Needed(mode, path);
        var after := [End(PrefixOf(node.ns), node.name)] + rest;
        var inner := stack + [Frame(PrefixOf(node.ns), node.name, Norm(inside))];
        CanonListReads(mode, path, node.children, inside, after, outer, inner);
        ElementReads(mode, path, env, rest, outer, stack);
      } else {
        CanonListReads(mode, path, node.children, env, rest, outer, stack);
        CanonOmitted(mode, above, node, env);
      }
    }
  }

  /** An omitted element leaves nothing but what its content leaves. */
  lemma CanonOmitted(mode: Mode, above: Path, node: Node, env: Env)
    requires node.Element? && !node.visible
    ensures Canon(mode, above, node, env) == CanonList(mode, [node] + above, node.children, env)
    ensures Infoset(mode, above, node) == InfosetList(mode, [node] + above, node.children)
    ensures NeedsPlain(mode, above, node) <==> NeedsPlainList(mode, [node] + above, node.children)
  {
  }

  lemma TextReads(mode: Mode, above: Path, node: Node, env: Env, rest: seq<Event>, outer: Env, stack: seq<Frame>)
    requires node.Text?
    ensures Read(mode, Canon(mode, above, node, env) + rest, outer, stack)
         == PrependAll(Infoset(mode, above, node), Read(mode, rest, outer, stack))
  {
    if node.visible {
      assert (Canon(mode, above, node, env) + rest)[1..] == rest;
      UnescapeEscape(node.content, TEXT);
    } else {
      assert Canon(mode, above, node, env) + rest == rest;
      PrependNothing(Read(mode, rest, outer, stack));
    }
  }

  /** One visible element reads back, given that its content does. */
  lemma ElementReads(mode: Mode, path: Path, env: Env, rest: seq<Event>, outer: Env, stack: seq<Frame>)
    requires path != [] && Consistent(path) && path[0].visible
    requires PlainEnv(Needed(mode, path)) && PlainEnv(env)
    requires env.Keys <= Scope(path).Keys && Inside(outer, stack) == Norm(env)
    requires
      var e := path[0];
      var inside := env + Needed(mode, path);
      var after := [End(PrefixOf(e.ns), e.name)] + rest;
      var inner := stack + [Frame(PrefixOf(e.ns), e.name, Norm(inside))];
      Read(mode, CanonList(mode, path, e.children, inside) + after, outer, inner)
      == PrependAll(InfosetList(mode, path, e.children), Read(mode, after, outer, inner))
    ensures Read(mode, Canon(mode, path[1..], path[0], env) + rest, outer, stack)
         == PrependAll(Infoset(mode, path[1..], path[0]), Read(mode, rest, outer, stack))
  {
    var e := path[0];
    var inside := env + Needed(mode, path);
    var p := PrefixOf(e.ns);
    var after := [End(p, e.name)] + rest;
    var body := CanonList(mode, path, e.children, inside);
    CanonSplits(mode, path, env, rest);
    MissingPlain(Needed(mode, path), env);
    StartTagReads(mode, path, env);
    StartTagIsRead(mode, path, env, body + after, outer, stack);
    EndReads(mode, p, e.name, rest, outer, stack, Norm(inside));
    PrependAround(TagItem(mode, path), InfosetList(mode, path, e.children), Stop, Read(mode, rest, outer, stack));
    InfosetSplits(mode, path);
  }

  lemma InfosetSplits(mode: Mode, path: Path)
    requires path != [] && path[0].Element? && path[0].visible
    ensures Infoset(mode, path[1..], path[0])
         == [TagItem(mode, path)] + InfosetList(mode, path, path[0].children) + [Stop]
  {
    assert [path[0]] + path[1..] == path;
  }

  lemma CanonSplits(mode: Mode, path: Path, env: Env, rest: seq<Event>)
    requires path != [] && path[0].Element? && path[0].visible
    ensures
      var e := path[0];
      Canon(mode, path[1..], e, env) + rest
      == StartTag(mode, path, env)
         + (CanonList(mode, path, e.children, env + Needed(mode, path)) + ([End(PrefixOf(e.ns), e.name)] + rest))
  {
    assert [path[0]] + path[1..] == path;
  }

  lemma EndReads(mode: Mode, p: string, name: string, rest: seq<Event>, outer: Env, stack: seq<Frame>, env: Env)
    ensures Read(mode, [End(p, name)] + rest, outer, stack + [Frame(p, name, env)])
         == Prepend(Stop, Read(mode, rest, outer, stack))
  {
    assert ([End(p, name)] + rest)[1..] == rest;
    assert (stack + [Frame(p, name, env)])[..|stack|] == stack;
  }

  lemma {:induction false} CanonListReads(mode: Mode, above: Path, nodes: seq<Node>, env: Env, rest: seq<Event>,
                                          outer: Env, stack: seq<Frame>)
    requires Consistent(above) && AdmissibleList(above, nodes) && NeedsPlainList(mode, above, nodes)
    requires env.Keys <= Scope(above).Keys && Inside(outer, stack) == Norm(env) && PlainEnv(env)
    ensures Read(mode, CanonList(mode, above, nodes, env) + rest, outer, stack)
         == PrependAll(InfosetList(mode, above, nodes), Read(mode, rest, outer, stack))
    decreases nodes, 0
  {
    if nodes == [] {
      assert CanonList(mode, above, nodes, env) + rest == rest;
      PrependNothing(Read(mode, rest, outer, stack));
    } else {
      var tail := CanonList(mode, above, nodes[1..], env);
      assert CanonList(mode, above, nodes, env) + rest == Canon(mode, above, nodes[0], env) + (tail + rest);
      CanonReads(mode, above, nodes[0], env, tail + rest, outer, stack);
      CanonListReads(mode, above, nodes[1..], env, rest, outer, stack);
      PrependTwice(Infoset(mode, above, nodes[0]), InfosetList(mode, above, nodes[1..]),
                   Read(mode, rest, outer, stack));
    }
  }

  // ---------------------------------------------------------------- what reads back is plain

  /** If output in front of `rest` reads back as the selected part in front of `items`, the needed URIs are plain,
      and `rest` reads as `items`. */
  lemma {:induction false} ReadsOnlyPlain(mode: Mode, above: Path, node: Node, env: Env, rest: seq<Event>,
                                          outer: Env, stack: seq<Frame>, items: seq<Item>)
    requires Consistent(above) && Admissible(above, node)
    requires env.Keys <= Scope(above).Keys && Inside(outer, stack) == Norm(env) && PlainEnv(env)
    requires Read(mode, Canon(mode, above, node, env) + rest, outer, stack)
          == Some(Infoset(mode, above, node) + items)
    ensures NeedsPlain(mode, above, node) && Read(mode, rest, outer, stack) == Some(items)
    decreases node, 0
  {
    if node.Text? {
      TextOnlyReads(mode, above, node, env, rest, outer, stack, items);
    } else {
      var path := [node] + above;
      assert path[0] == node && path[1..] == above;
      ScopeGrows(node, above);
      if node.visible {
        var inside := env + Needed(mode, path);
        var after := [End(PrefixOf(node.ns), node.name)] + rest;
        var inner := stack + [Frame(PrefixOf(node.ns), node.name, Norm(inside))];
        TagReadsOnlyPlain(mode, path, env, rest, outer, stack, items);
        InsideScope(mode, path, env);
        ReadsOnlyPlainList(mode, path, node.children, inside, after, outer, inner, [Stop] + items);
        EndOnlyReads(mode, PrefixOf(node.ns), node.name, rest, outer, stack, Norm(inside), items);
      } else {
        CanonOmitted(mode, above, node, env);
        ReadsOnlyPlainList(mode, path, node.children, env, rest, outer, stack, items);
      }
    }
  }

  lemma InsideScope(mode: Mode, path: Path, env: Env)
    requires path != [] && path[0].Element? && env.Keys <= Scope(path).Keys
    requires PlainEnv(env) && PlainEnv(Needed(mode, path))
    ensures (env + Needed(mode, path)).Keys <= Scope(path).Keys && PlainEnv(env + Needed(mode, path))
  {
  }

  lemma EndOnlyReads(mode: Mode, p: string, name: string, rest: seq<Event>, outer: Env, stack: seq<Frame>, env: Env,
                     items: seq<Item>)
    requires Read(mode, [End(p, name)] + rest, outer, stack + [Frame(p, name, env)]) == Some([Stop] + items)
    ensures Read(mode, rest, outer, stack) == Some(items)
  {
    EndReads(mode, p, name, rest, outer, stack, env);
    SameTail(Stop, Read(mode, rest, outer, stack), items);
  }

  lemma TextOnlyReads(mode: Mode, above: Path, node: Node, env: Env, rest: seq<Event>, outer: Env, stack: seq<Frame>,
                      items: seq<Item>)
    requires node.Text?
    requires Read(mode, Canon(mode, above, node, env) + rest, outer, stack)
          == Some(Infoset(mode, above, node) + items)
    ensures Read(mode, rest, outer, stack) == Some(items)
  {
    if node.visible {
      assert (Canon(mode, above, node, env) + rest)[1..] == rest;
      UnescapeEscape(node.content, TEXT);
      SameTail(Data(node.content), Read(mode, rest, outer, stack), items);
    } else {
      assert Canon(mode, above, node, env) + rest == rest && [] + items == items;
    }
  }

  lemma SameTail(item: Item, r: Option<seq<Item>>, items: seq<Item>)
    requires Prepend(item, r) == Some([item] + items)
    ensures r == Some(items)
  {
    assert ([item] + r.value)[1..] == r.value && ([item] + items)[1..] == items;
  }

  /** The start tag's part of it: first the tag alone, then in front of the element's content. */
  lemma TagOnlyPlain(mode: Mode, path: Path, env: Env, evs: seq<Event>, outer: Env, stack: seq<Frame>,
                     items: seq<Item>)
    requires path != [] && Consistent(path) && path[0].visible
    requires env.Keys <= Scope(path).Keys && Inside(outer, stack) == Norm(env)
    requires Read(mode, StartTag(mode, path, env) + evs, outer, stack) == Some([TagItem(mode, path)] + items)
    ensures PlainEnv(Missing(Needed(mode, path), env))
    ensures Read(mode, evs, outer, stack + [Frame(PrefixOf(path[0].ns), path[0].name, Norm(env + Needed(mode, path)))])
         == Some(items)
  {
    var e, tag := path[0], TagAsRead(mode, path, env);
    StartTagIsRead(mode, path, env, evs, outer, stack);
    StartTagReads(mode, path, env);
    SameHead(tag.value.0, Read(mode, evs, outer, stack + [Frame(PrefixOf(e.ns), e.name, tag.value.1)]),
             TagItem(mode, path), items);
  }

  lemma TagReadsOnlyPlain(mode: Mode, path: Path, env: Env, rest: seq<Event>, outer: Env, stack: seq<Frame>,
                          items: seq<Item>)
    requires path != [] && Consistent(path) && path[0].visible
    requires env.Keys <= Scope(path).Keys && Inside(outer, stack) == Norm(env) && PlainEnv(env)
    requires Read(mode, Canon(mode, path[1..], path[0], env) + rest, outer, stack)
          == Some(Infoset(mode, path[1..], path[0]) + items)
    ensures PlainEnv(Needed(mode, path))
    ensures
      var e := path[0];
      var inside := env + Needed(mode, path);
      var after := [End(PrefixOf(e.ns), e.name)] + rest;
      var inner := stack + [Frame(PrefixOf(e.ns), e.name, Norm(inside))];
      Read(mode, CanonList(mode, path, e.children, inside) + after, outer, inner)
      == Some(InfosetList(mode, path, e.children) + ([Stop] + items))
  {
    var e := path[0];
    var after := [End(PrefixOf(e.ns), e.name)] + rest;
    var body := CanonList(mode, path, e.children, env + Needed(mode, path));
    var content := InfosetList(mode, path, e.children);
    CanonSplits(mode, path, env, rest);
    InfosetSplits(mode, path);
    JoinItems(TagItem(mode, path), content, Stop, items);
    TagOnlyPlain(mode, path, env, body + after, outer, stack, content + ([Stop] + items));
    MissingPlain(Needed(mode, path), env);
  }

  lemma JoinItems(x: Item, b: seq<Item>, y: Item, items: seq<Item>)
    ensures [x] + b + [y] + items == [x] + (b + ([y] + items))
  {
  }

  lemma SameHead(x: Item, r: Option<seq<Item>>, y: Item, items: seq<Item>)
    requires Prepend(x, r) == Some([y] + items)
    ensures x == y && r == Some(items)
  {
    assert ([x] + r.value)[0] == x && ([y] + items)[0] == y;
    SameTail(x, r, items);
  }

  lemma {:induction false} ReadsOnlyPlainList(mode: Mode, above: Path, nodes: seq<Node>, env: Env, rest: seq<Event>,
                                              outer: Env, stack: seq<Frame>, items: seq<Item>)
    requires Consistent(above) && AdmissibleList(above, nodes)
    requires env.Keys <= Scope(above).Keys && Inside(outer, stack) == Norm(env) && PlainEnv(env)
    requires Read(mode, CanonList(mode, above, nodes, env) + rest, outer, stack)
          == Some(InfosetList(mode, above, nodes) + items)
    ensures NeedsPlainList(mode, above, nodes) && Read(mode, rest, outer, stack) == Some(items)
    decreases nodes, 0
  {
    if nodes == [] {
      assert CanonList(mode, above, nodes, env) + rest == rest && [] + items == items;
    } else {
      var tail, more := CanonList(mode, above, nodes[1..], env), InfosetList(mode, above, nodes[1..]);
      Associative(Canon(mode, above, nodes[0], env), tail, rest);
      Associative(Infoset(mode, above, nodes[0]), more, items);
      ReadsOnlyPlain(mode, above, nodes[0], env, tail + rest, outer, stack, more + items);
      ReadsOnlyPlainList(mode, above, nodes[1..], env, rest, outer, stack, items);
    }
  }

  lemma Associative<T>(a: seq<T>, b: seq<T>, c: seq<T>)
    ensures a + b + c == a + (b + c)
  {
  }

  // ---------------------------------------------------------------- the main theorem

  /** The canonical form of a document reads back as exactly the selected part of the document if and only if every
      namespace URI that an output element needs is plain, which is to say: every one that is printed. */
  lemma CanonicalFormKeepsMeaning(mode: Mode, nodes: seq<Node>)
    requires AdmissibleList([], nodes)
    ensures Read(mode, CanonList(mode, [], nodes, map[]), map[], []) == Some(InfosetList(mode, [], nodes))
       <==> NeedsPlainList(mode, [], nodes)
    ensures NeedsPlainList(mode, [], nodes) <==> PrintsPlain(CanonList(mode, [], nodes, map[]))
  {
    var evs, items := CanonList(mode, [], nodes, map[]), InfosetList(mode, [], nodes);
    NeededIsPrintedList(mode, [], nodes, map[]);
    assert evs + [] == evs && items + [] == items;
    if NeedsPlainList(mode, [], nodes) {
      CanonListReads(mode, [], nodes, map[], [], map[], []);
    }
    if Read(mode, evs, map[], []) == Some(items) {
      ReadsOnlyPlainList(mode, [], nodes, map[], [], map[], [], []);
    }
  }

  // ---------------------------------------------------------------- documents that are accepted

  ghost predicate PrintsNoAmpersand(evs: seq<Event>) {
    forall d :: Xmlns(d) in evs ==> '&' !in d.href
  }

  ghost predicate PrintsAbsolute(evs: seq<Event>) {
    forall d :: Xmlns(d) in evs ==> Absolute(d.href)
  }

  lemma AbsolutePlain(href: string)
    requires Absolute(href)
    ensures Plain(href) <==> '&' !in href
  {
    forall i | 0 <= i < |href|
      ensures Special(href[i]) <==> href[i] == '&'
    {
      AbsoluteChars(href, i);
    }
  }

  lemma TagPrintsAbsolute(mode: Mode, path: Path, env: Env)
    requires path != [] && path[0].Element? && AbsolutePath(path)
    ensures PrintsAbsolute(StartTag(mode, path, env))
  {
    forall d | Xmlns(d) in StartTag(mode, path, env)
      ensures Absolute(d.href)
    {
      assert d == Decl(d.prefix, d.href);
      TagDeclares(mode, path, env, d.prefix, d.href);
      DeclaredAbsolute(path, d.prefix);
    }
  }

  lemma PrintsAbsoluteAppend(a: seq<Event>, b: seq<Event>)
    requires PrintsAbsolute(a) && PrintsAbsolute(b)
    ensures PrintsAbsolute(a + b)
  {
  }

  lemma {:induction false} AcceptedPrints(mode: Mode, above: Path, node: Node, env: Env)
    requires AbsolutePath(above) && Accepted(node)
    ensures PrintsAbsolute(Canon(mode, above, node, env))
    decreases node, 0
  {
    if node.Element? {
      var path := [node] + above;
      if node.visible {
        var inside := env + Needed(mode, path);
        var tag, content := StartTag(mode, path, env), CanonList(mode, path, node.children, inside);
        TagPrintsAbsolute(mode, path, env);
        AcceptedPrintsList(mode, path, node.children, inside);
        PrintsAbsoluteAppend(tag, content);
        PrintsAbsoluteAppend(tag + content, [End(PrefixOf(node.ns), node.name)]);
      } else {
        AcceptedPrintsList(mode, path, node.children, env);
      }
    }
  }

  lemma {:induction false} AcceptedPrintsList(mode: Mode, above: Path, nodes: seq<Node>, env: Env)
    requires AbsolutePath(above) && AcceptedList(nodes)
    ensures PrintsAbsolute(CanonList(mode, above, nodes, env))
    decreases nodes, 0
  {
    if nodes != [] {
      AcceptedPrints(mode, above, nodes[0], env);
      AcceptedPrintsList(mode, above, nodes[1..], env);
      PrintsAbsoluteAppend(Canon(mode, above, nodes[0], env), CanonList(mode, above, nodes[1..], env));
    }
  }

  lemma PlainIsNoAmpersand(mode: Mode, nodes: seq<Node>)
    requires AcceptedList(nodes)
    ensures
      var evs := CanonList(mode, [], nodes, map[]);
      PrintsPlain(evs) <==> PrintsNoAmpersand(evs)
  {
    var evs := CanonList(mode, [], nodes, map[]);
    AcceptedPrintsList(mode, [], nodes, map[]);
    forall d | Xmlns(d) in evs
      ensures Plain(d.href) <==> '&' !in d.href
    {
      AbsolutePlain(d.href);
    }
  }

  /** Of a document that is accepted, the canonical form reads back as exactly the selected part if and only if no
      printed namespace URI has an ampersand, and then nothing in it is redundant. */
  lemma AcceptedKeepsMeaning(mode: Mode, nodes: seq<Node>)
    requires AdmissibleList([], nodes) && AcceptedList(nodes)
    ensures
      var evs := CanonList(mode, [], nodes, map[]);
      && (Read(mode, evs, map[], []) == Some(InfosetList(mode, [], nodes)) <==> PrintsNoAmpersand(evs))
      && (PrintsNoAmpersand(evs) ==> NoneRedundant(evs, map[], []))
  {
    CanonicalFormKeepsMeaning(mode, nodes);
    PlainIsNoAmpersand(mode, nodes);
    if PrintsPlain(CanonList(mode, [], nodes, map[])) {
      CanonicalFormIsMinimal(mode, nodes);
    }
  }

  // ---------------------------------------------------------------- namespace URIs that fail

  /** An element without content that declares the prefix p. */
  function Declaring(uri: string): Node {
    Element("a", None, [Ns(1, "p", uri)], [], [], true, {"p"})
  }

  lemma DeclaringScope(uri: string)
    ensures Scope([Declaring(uri)]) == map["p" := uri]
    ensures Norm(Scope([Declaring(uri)])) == map["p" := uri]
    ensures AttrAxis(Inclusive, [Declaring(uri)]) == []
  {
    var path := [Declaring(uri)];
    assert path[1..] == [];
    forall p
      ensures Declared(path, p) == if p == "p" then Some(Ns(1, "p", uri)) else None
    {
      assert FindDecl(Defs(path[0])[1..], p) == None;
    }
    var scope := Scope(path);
    assert scope == map["p" := uri];
  }

  lemma DeclaringTag(uri: string)
    requires uri != ""
    ensures Needed(Inclusive, [Declaring(uri)]) == map["p" := uri]
    ensures Listing(Missing(Needed(Inclusive, [Declaring(uri)]), map[])) == [Decl("p", uri)]
    ensures StartTag(Inclusive, [Declaring(uri)], map[]) == [Open("", "a"), Xmlns(Decl("p", uri)), Close]
  {
    DeclaringScope(uri);
    var ds, m := [Decl("p", uri)], map["p" := uri];
    assert Missing(Needed(Inclusive, [Declaring(uri)]), map[]) == m;
    assert forall d :: d in ds <==> d == Decl("p", uri);
    ListingUnique(ds, m);
  }

  lemma DeclaringOk(uri: string)
    ensures Admissible([], Declaring(uri))
  {
    var node := Declaring(uri);
    var path := [node] + [];
    assert path == [node];
    DeclaringScope(uri);
    assert NsOk(path) && SelectionOk(path) && AdmissibleList(path, []);
  }

  /** Its canonical form has the URI as it is. */
  lemma DeclaringForms(uri: string)
    requires uri != ""
    ensures AdmissibleList([], [Declaring(uri)])
    ensures CanonList(Inclusive, [], [Declaring(uri)], map[])
         == StartTag(Inclusive, [Declaring(uri)], map[]) + [End("", "a")]
    ensures InfosetList(Inclusive, [], [Declaring(uri)]) == [Start(None, "a", [], map["p" := uri]), Stop]
  {
    var node := Declaring(uri);
    var path := [node];
    assert path == [node] + [] && [node][1..] == [];
    DeclaringScope(uri);
    DeclaringOk(uri);
    assert CanonList(Inclusive, path, [], map[] + Needed(Inclusive, path)) == [];
    assert Reported(Inclusive, map["p" := uri]) == map["p" := uri];
    assert InfosetList(Inclusive, path, []) == [];
    assert Infoset(Inclusive, [], node) == [Start(None, "a", [], map["p" := uri]), Stop];
  }

  lemma DeclaringDecls(uri: string)
    ensures ReadDecls([Decl("p", uri)])
         == if Unescape(uri, ATTR).None? then None else Some([Decl("p", Unescape(uri, ATTR).value)])
  {
    var ds, value := [Decl("p", uri)], Unescape(uri, ATTR);
    assert ds[1..] == [];
    assert value.Some? ==> [Decl("p", value.value)] + [] == [Decl("p", value.value)];
  }

  lemma DeclaringStart(uri: string)
    requires uri != ""
    ensures
      var value := Unescape(uri, ATTR);
      var tag := TagAsRead(Inclusive, [Declaring(uri)], map[]);
      if value.None? then tag.None?
      else tag == Some((Start(None, "a", [], map["p" := value.value]), map["p" := value.value]))
  {
    DeclaringTag(uri);
    DeclaringScope(uri);
    DeclaringDecls(uri);
    RawValueReads(uri);
    assert AttrEvents([]) == [];
    if Unescape(uri, ATTR).Some? {
      var d := Decl("p", Unescape(uri, ATTR).value);
      var inside := map["p" := d.href];
      assert [d][1..] == [] && Bind(Norm(map[]), d) == inside;
      assert BindAll(Norm(map[]), [d]) == inside;
      assert Reported(Inclusive, inside) == inside;
    }
  }

  lemma EmptyElementReads(mode: Mode, path: Path, env: Env)
    requires path != [] && path[0].Element?
    ensures
      var tag := TagAsRead(mode, path, env);
      Read(mode, StartTag(mode, path, env) + [End(PrefixOf(path[0].ns), path[0].name)], Norm(env), [])
      == if tag.None? then None else Some([tag.value.0, Stop])
  {
    var p, name, tag := PrefixOf(path[0].ns), path[0].name, TagAsRead(mode, path, env);
    StartTagIsRead(mode, path, env, [End(p, name)], Norm(env), []);
    if tag.Some? {
      EndReads(mode, p, name, [], Norm(env), [], tag.value.1);
      assert [End(p, name)] + [] == [End(p, name)];
      assert [] + [Frame(p, name, tag.value.1)] == [Frame(p, name, tag.value.1)];
      assert [tag.value.0] + [Stop] == [tag.value.0, Stop] && [Stop] + [] == [Stop];
    }
  }

  /** What a reader makes of it is what it makes of the raw value. */
  lemma DeclaringRead(uri: string)
    requires uri != ""
    ensures
      var value := Unescape(uri, ATTR);
      Read(Inclusive, CanonList(Inclusive, [], [Declaring(uri)], map[]), map[], [])
      == if value.None? then None else Some([Start(None, "a", [], map["p" := value.value]), Stop])
  {
    DeclaringForms(uri);
    DeclaringStart(uri);
    EmptyElementReads(Inclusive, [Declaring(uri)], map[]);
  }

  /** A URI with a bare ampersand: the output is not well formed. */
  lemma AmpersandFails(a: string, b: string)
    requires Plain(a) && Reference("&" + b) == None
    ensures AdmissibleList([], [Declaring(a + ("&" + b))])
    ensures Read(Inclusive, CanonList(Inclusive, [], [Declaring(a + ("&" + b))], map[]), map[], []) == None
  {
    UnescapePlain(a, "&" + b);
    DeclaringForms(a + ("&" + b));
    DeclaringRead(a + ("&" + b));
  }

  /** A URI with a reference: the output reads as another URI. */
  lemma ReferenceFails(a: string, b: string)
    requires Plain(a) && Plain(b)
    ensures AdmissibleList([], [Declaring(a + ("&amp;" + b))])
    ensures Read(Inclusive, CanonList(Inclusive, [], [Declaring(a + ("&amp;" + b))], map[]), map[], [])
         == Some([Start(None, "a", [], map["p" := a + ("&" + b)]), Stop])
  {
    RawValueReads(b);
    UnescapeStep('&', b, ATTR);
    assert ['&'] + b == "&" + b;
    UnescapePlain(a, "&amp;" + b);
    DeclaringForms(a + ("&amp;" + b));
    DeclaringRead(a + ("&amp;" + b));
  }

  /** For example urn:x&y=2 is accepted, but the output is not well formed. */
  lemma AmpersandUri()
    ensures AcceptedList([Declaring("urn:x&y=2")])
    ensures Read(Inclusive, CanonList(Inclusive, [], [Declaring("urn:x&y=2")], map[]), map[], []) == None
  {
    AmpersandParts();
    DeclaringAccepted("urn:x&y=2");
    AmpersandFails("urn:x", "y=2");
  }

  lemma AmpersandParts()
    ensures Plain("urn:x") && Reference("&" + "y=2") == None
    ensures "urn:x" + ("&" + "y=2") == "urn:x&y=2" && Absolute("urn:x&y=2")
  {
    assert "&" + "y=2" == "&y=2" && "&y=2"[1] == 'y';
    UrnAbsolute("x&y=2");
    assert "urn:" + "x&y=2" == "urn:x&y=2";
  }

  /** And urn:x&amp;b is accepted, but reads as urn:x&b. */
  lemma ReferenceUri()
    ensures AcceptedList([Declaring("urn:x&amp;b")])
    ensures Read(Inclusive, CanonList(Inclusive, [], [Declaring("urn:x&amp;b")], map[]), map[], [])
         == Some([Start(None, "a", [], map["p" := "urn:x&b"]), Stop])
  {
    ReferenceParts();
    PlainParts();
    ReferenceAbsolute();
    DeclaringAccepted("urn:x&amp;b");
    ReferenceFails("urn:x", "b");
  }

  lemma ReferenceParts()
    ensures "urn:x" + ("&amp;" + "b") == "urn:x&amp;b"
    ensures "urn:x" + ("&" + "b") == "urn:x&b"
  {
    assert "&amp;" + "b" == "&amp;b" && "&" + "b" == "&b";
  }

  lemma PlainParts()
    ensures Plain("urn:x") && Plain("b")
  {
  }

  lemma ReferenceAbsolute()
    ensures Absolute("urn:x&amp;b")
  {
    UrnAbsolute("x&amp;b");
    assert "urn:" + "x&amp;b" == "urn:x&amp;b";
  }

  lemma DeclaringAccepted(uri: string)
    requires Absolute(uri)
    ensures AcceptedList([Declaring(uri)])
  {
    var node := Declaring(uri);
    assert forall d :: d in Defs(node) ==> d == Ns(1, "p", uri);
    assert AbsoluteDefs(node) && Accepted(node);
    assert [node][1..] == [];
  }

  // ---------------------------------------------------------------- nothing redundant is printed

  /** Walks the output as the reader does: no declaration leaves the bindings in force as they were. */
  ghost predicate NoneRedundant(evs: seq<Event>, outer: Env, stack: seq<Frame>)
    decreases |evs|
  {
    evs != [] ==>
      match evs[0]
      case Open(prefix, name) =>
        var env := Inside(outer, stack);
        var (ds, r1) := TakeDecls(evs[1..]);
        var (attrs, r2) := TakeAttrs(r1);
        var decls := ReadDecls(ds);
        && decls.Some? && r2 != []
        && (forall d :: d in decls.value ==> Bind(env, d) != env)
        && NoneRedundant(r2[1..], outer, stack + [Frame(prefix, name, BindAll(env, decls.value))])
      case End(_, _) => stack != [] && NoneRedundant(evs[1..], outer, stack[..|stack| - 1])
      case _ => NoneRedundant(evs[1..], outer, stack)
  }

  lemma TagNotRedundant(mode: Mode, path: Path, env: Env, rest: seq<Event>, outer: Env, stack: seq<Frame>)
    requires path != [] && Consistent(path) && path[0].visible
    requires Inside(outer, stack) == Norm(env) && PlainEnv(env) && PlainEnv(Needed(mode, path))
    requires NoneRedundant(rest, outer,
                           stack + [Frame(PrefixOf(path[0].ns), path[0].name, Norm(env + Needed(mode, path)))])
    ensures NoneRedundant(StartTag(mode, path, env) + rest, outer, stack)
  {
    var needed := Needed(mode, path);
    var ds := Listing(Missing(needed, env));
    TagSplits(mode, path, env, rest);
    MissingPlain(needed, env);
    PlainDeclsRead(ds);
    MissingRestores(env, needed);
    forall d | d in ds
      ensures Bind(Norm(env), d) != Norm(env)
    {
      MissingChanges(env, d);
    }
  }

  /** A binding that is not in force changes the bindings. */
  lemma MissingChanges(env: Env, d: Decl)
    requires !InForce(env, d.prefix, d.href)
    ensures Bind(Norm(env), d) != Norm(env)
  {
    var p, before, now := d.prefix, Norm(env), Bind(Norm(env), d);
    if p == "" && d.href == "" {
      assert p in before && p !in now;
    } else {
      assert now[p] == d.href && (p in before ==> before[p] != d.href);
    }
  }

  lemma {:induction false} CanonNotRedundant(mode: Mode, above: Path, node: Node, env: Env, rest: seq<Event>,
                                             outer: Env, stack: seq<Frame>)
    requires Consistent(above) && Admissible(above, node) && NeedsPlain(mode, above, node)
    requires Inside(outer, stack) == Norm(env) && PlainEnv(env)
    requires NoneRedundant(rest, outer, stack)
    ensures NoneRedundant(Canon(mode, above, node, env) + rest, outer, stack)
    decreases node, 0
  {
    if node.Text? {
      TextNotRedundant(mode, above, node, env, rest, outer, stack);
    } else {
      var path := [node] + above;
      assert path[1..] == above;
      if node.visible {
        var inside := env + Needed(mode, path);
        var after := [End(PrefixOf(node.ns), node.name)] + rest;
        var inner := stack + [Frame(PrefixOf(node.ns), node.name, Norm(inside))];
        EndNotRedundant(PrefixOf(node.ns), node.name, rest, outer, stack, Norm(inside));
        CanonListNotRedundant(mode, path, node.children, inside, after, outer, inner);
        ElementNotRedundant(mode, path, env, rest, outer, stack);
      } else {
        CanonListNotRedundant(mode, path, node.children, env, rest, outer, stack);
        CanonOmitted(mode, above, node, env);
      }
    }
  }

  lemma TextNotRedundant(mode: Mode, above: Path, node: Node, env: Env, rest: seq<Event>, outer: Env,
                         stack: seq<Frame>)
    requires node.Text? && NoneRedundant(rest, outer, stack)
    ensures NoneRedundant(Canon(mode, above, node, env) + rest, outer, stack)
  {
    if node.visible {
      assert (Canon(mode, above, node, env) + rest)[1..] == rest;
    } else {
      assert Canon(mode, above, node, env) + rest == rest;
    }
  }

  lemma EndNotRedundant(p: string, name: string, rest: seq<Event>, outer: Env, stack: seq<Frame>, env: Env)
    requires NoneRedundant(rest, outer, stack)
    ensures NoneRedundant([End(p, name)] + rest, outer, stack + [Frame(p, name, env)])
  {
    assert ([End(p, name)] + rest)[1..] == rest;
    assert (stack + [Frame(p, name, env)])[..|stack|] == stack;
  }

  /** One visible element, given that its content has nothing redundant. */
  lemma ElementNotRedundant(mode: Mode, path: Path, env: Env, rest: seq<Event>, outer: Env, stack: seq<Frame>)
    requires path != [] && Consistent(path) && path[0].visible
    requires Inside(outer, stack) == Norm(env) && PlainEnv(env) && PlainEnv(Needed(mode, path))
    requires
      var e := path[0];
      var inside := env + Needed(mode, path);
      NoneRedundant(CanonList(mode, path, e.children, inside) + ([End(PrefixOf(e.ns), e.name)] + rest), outer,
                    stack + [Frame(PrefixOf(e.ns), e.name, Norm(inside))])
    ensures NoneRedundant(Canon(mode, path[1..], path[0], env) + rest, outer, stack)
  {
    var e := path[0];
    var after := [End(PrefixOf(e.ns), e.name)] + rest;
    CanonSplits(mode, path, env, rest);
    TagNotRedundant(mode, path, env, CanonList(mode, path, e.children, env + Needed(mode, path)) + after, outer, stack);
  }

  lemma {:induction false} CanonListNotRedundant(mode: Mode, above: Path, nodes: seq<Node>, env: Env,
                                                 rest: seq<Event>, outer: Env, stack: seq<Frame>)
    requires Consistent(above) && AdmissibleList(above, nodes) && NeedsPlainList(mode, above, nodes)
    requires Inside(outer, stack) == Norm(env) && PlainEnv(env)
    requires NoneRedundant(rest, outer, stack)
    ensures NoneRedundant(CanonList(mode, above, nodes, env) + rest, outer, stack)
    decreases nodes, 0
  {
    if nodes == [] {
      assert CanonList(mode, above, nodes, env) + rest == rest;
    } else {
      var tail := CanonList(mode, above, nodes[1..], env);
      Associative(Canon(mode, above, nodes[0], env), tail, rest);
      CanonListNotRedundant(mode, above, nodes[1..], env, rest, outer, stack);
      CanonNotRedundant(mode, above, nodes[0], env, tail + rest, outer, stack);
    }
  }

  /** As read, no declaration of a document's canonical form repeats a binding in force. */
  lemma CanonicalFormIsMinimal(mode: Mode, nodes: seq<Node>)
    requires AdmissibleList([], nodes) && NeedsPlainList(mode, [], nodes)
    ensures NoneRedundant(CanonList(mode, [], nodes, map[]), map[], [])
  {
    CanonListNotRedundant(mode, [], nodes, map[], [], map[], []);
    assert CanonList(mode, [], nodes, map[]) + [] == CanonList(mode, [], nodes, map[]);
  }
}

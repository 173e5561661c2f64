/** What the canonical form is, as a function of the tree: at each output element the needed bindings that
    are not in force at the nearest output ancestor, in sorted order. Canonical XML 1.0 needs every binding
    in scope; Exclusive XML Canonicalization 1.0 needs the visibly used ones and the inclusive list. */
module C14nSpec {
  import opened XmlString
  import opened SortedList
  import opened XmlTree
  import opened C14nEscape
  import opened Uri

  /** Prefix to URI; an empty default namespace may be recorded as "" := "". */
  type Env = map<string, string>

  datatype Decl = Decl(prefix: string, href: string)

  /** The pieces of the output buffer. */
  datatype Event =
    | Open(prefix: string, name: string)
    | Xmlns(decl: Decl)
    | Attribute(prefix: string, name: string, value: string)
    | Close
    | Chars(text: string)
    | End(prefix: string, name: string)

  datatype Mode = Inclusive | Exclusive(prefixes: seq<string>)

  // ---------------------------------------------------------------- bindings

  function DeclPrefixes(path: Path): set<string> {
    if path == [] then {} else (set d | d in Defs(path[0]) :: d.prefix) + DeclPrefixes(path[1..])
  }

  lemma {:induction false} DeclaredPrefix(path: Path, p: string)
    ensures Declared(path, p).Some? ==> p in DeclPrefixes(path)
  {
    if path != [] { DeclaredPrefix(path[1..], p); }
  }

  /** Every binding declared on the element or an ancestor, except the xml prefix; "" := "" for an
      undeclared default. */
  function Scope(path: Path): (r: Env)
    ensures forall p :: p in r <==> p != "xml" && Declared(path, p).Some?
    ensures forall p :: p in r ==> r[p] == Declared(path, p).value.href
  {
    var r := map p | p in DeclPrefixes(path) && p != "xml" && Declared(path, p).Some? :: Declared(path, p).value.href;
    assert forall p :: p in r <==> p != "xml" && Declared(path, p).Some? by {
      forall p ensures p in r <==> p != "xml" && Declared(path, p).Some? { DeclaredPrefix(path, p); }
    }
    r
  }

  lemma ScopeGrows(node: Node, above: Path)
    ensures Scope(above).Keys <= Scope([node] + above).Keys
  {
    forall p | p in Scope(above)
      ensures p in Scope([node] + above)
    {
      assert ([node] + above)[1..] == above;
    }
  }

  /** The special value #default in the list of inclusive prefixes means the default namespace. */
  function InclusivePrefix(s: string): string {
    if s == "#default" then "" else s
  }

  ghost predicate OnInclusiveList(mode: Mode, p: string) {
    mode.Exclusive? && exists s :: s in mode.prefixes && InclusivePrefix(s) == p
  }

  /** The prefix appears in the name of the element or of a visible attribute. */
  ghost predicate VisiblyUsed(e: Node, p: string)
    requires e.Element?
  {
    || p == (if e.ns.Some? then e.ns.value.prefix else "")
    || exists a :: a in e.attrs && a.visible && a.ns.Some? && a.ns.value.prefix == p
  }

  ghost predicate IsNeeded(mode: Mode, e: Node, p: string)
    requires e.Element?
  {
    mode.Inclusive? || OnInclusiveList(mode, p) || VisiblyUsed(e, p)
  }

  /** The bindings an output element relies on. */
  ghost function Needed(mode: Mode, path: Path): Env
    requires path != [] && path[0].Element?
  {
    map p | p in Scope(path) && IsNeeded(mode, path[0], p) :: Scope(path)[p]
  }

  /** Is the binding in force? An empty default is in force when there is no default. */
  predicate InForce(env: Env, p: string, href: string) {
    if p in env then env[p] == href else p == "" && href == ""
  }

  ghost function Missing(needed: Env, env: Env): Env {
    map p | p in needed && !InForce(env, p, needed[p]) :: needed[p]
  }

  function DeclKey(d: Decl): Key { Key(None, d.prefix) }

  ghost predicate Lists(ds: seq<Decl>, m: Env) {
    && Sorted(ds, DeclKey)
    && (forall d :: d in ds <==> d.prefix in m && m[d.prefix] == d.href)
  }

  function DeclCompare(a: Decl, b: Decl): int { StrCmp(a.prefix, b.prefix) }

  lemma {:induction false} ListingExists(m: Env) returns (ds: seq<Decl>)
    ensures Lists(ds, m)
    decreases |m|
  {
    if m == map[] {
      ds := [];
    } else {
      var p :| p in m;
      var rest := m - {p};
      assert rest.Keys == m.Keys - {p};
      ds := ListingExists(rest);
      var d := Decl(p, m[p]);
      assert Agrees(DeclCompare, DeclKey, ds, d);
      InsertedSorted(ds, d, DeclCompare, DeclKey);
      InsertedElements(ds, d, DeclCompare);
      ds := Inserted(ds, d, DeclCompare);
    }
  }

  /** The bindings in ascending order of their prefixes. */
  ghost function Listing(m: Env): (ds: seq<Decl>)
    ensures Lists(ds, m)
  {
    assert exists ds :: Lists(ds, m) by { var ds := ListingExists(m); }
    var ds :| Lists(ds, m);
    ds
  }

  lemma ListingUnique(ds: seq<Decl>, m: Env)
    requires Lists(ds, m)
    ensures ds == Listing(m)
  {
    var l := Listing(m);
    assert forall d :: d in ds <==> d in l;
    UniqueSorted(ds, l, DeclKey);
  }

  // ---------------------------------------------------------------- attributes

  /** xmlC14NAttrsCompare. */
  function AttrCompare(a: Attr, b: Attr): int {
    if a == b then 0
    else if a.ns == b.ns then StrCmp(a.name, b.name)
    else if a.ns.None? then -1
    else if b.ns.None? then 1
    else if a.ns.value.prefix == "" then -1
    else if b.ns.value.prefix == "" then 1
    else
      var r := StrCmp(a.ns.value.href, b.ns.value.href);
      if r == 0 then StrCmp(a.name, b.name) else r
  }

  /** Namespace URI as the primary key, local name as the secondary key, no namespace first. */
  function AttrKey(a: Attr): Key {
    Key(if a.ns.Some? then Some(a.ns.value.href) else None, a.name)
  }

  predicate Prefixed(a: Attr) {
    a.ns.Some? ==> a.ns.value.prefix != ""
  }

  /** On attributes whose namespaces have prefixes the comparator is the order of the keys. */
  lemma AttrCompareIsKeyOrder(a: Attr, b: Attr)
    requires Prefixed(a) && Prefixed(b)
    ensures AttrCompare(a, b) < 0 <==> KeyCmp(AttrKey(a), AttrKey(b)) < 0
    ensures AttrCompare(a, b) == 0 <==> AttrKey(a) == AttrKey(b)
  {
  }

  ghost function AddVisible(list: seq<Attr>, attrs: seq<Attr>): seq<Attr>
    decreases |attrs|
  {
    if attrs == [] then list
    else AddVisible(if attrs[0].visible then Inserted(list, attrs[0], AttrCompare) else list, attrs[1..])
  }

  predicate IsXmlAttr(a: Attr) {
    a.ns.Some? && a.ns.value.prefix == "xml"
  }

  ghost function AddXml(list: seq<Attr>, attrs: seq<Attr>): seq<Attr>
    decreases |attrs|
  {
    if attrs == [] then list
    else AddXml(
      if IsXmlAttr(attrs[0]) && !Searched(list, attrs[0], AttrCompare) then Inserted(list, attrs[0], AttrCompare)
      else list, attrs[1..])
  }

  function Attrs(n: Node): seq<Attr> {
    if n.Element? then n.attrs else []
  }

  ghost function AddInherited(list: seq<Attr>, path: Path): seq<Attr>
    decreases |path|
  {
    if path == [] then list else AddInherited(AddXml(list, Attrs(path[0])), path[1..])
  }

  /** The attribute axis: the visible attributes, and below an omitted parent the nearest xml attributes of
      the ancestors that the element lacks. */
  ghost function AttrAxis(mode: Mode, path: Path): seq<Attr>
    requires path != [] && path[0].Element?
  {
    var own := AddVisible([], path[0].attrs);
    if path[0].visible && mode.Inclusive? && |path| > 1 && !path[1].visible then AddInherited(own, path[1..])
    else own
  }

  // ---------------------------------------------------------------- the canonical form

  function PrefixOf(ns: Option<Ns>): string {
    if ns.Some? then ns.value.prefix else ""
  }

  function DeclEvents(ds: seq<Decl>): (r: seq<Event>)
    ensures |r| == |ds| && forall i :: 0 <= i < |ds| ==> r[i] == Xmlns(ds[i])
  {
    seq(|ds|, i requires 0 <= i < |ds| => Xmlns(ds[i]))
  }

  function AttrEvents(attrs: seq<Attr>): (r: seq<Event>)
    ensures |r| == |attrs|
    ensures forall i :: 0 <= i < |r| ==>
              r[i] == Attribute(PrefixOf(attrs[i].ns), attrs[i].name, Escape(attrs[i].value, ATTR))
  {
    seq(|attrs|, i requires 0 <= i < |attrs| =>
      Attribute(PrefixOf(attrs[i].ns), attrs[i].name, Escape(attrs[i].value, ATTR)))
  }

  /** The start tag of an output element whose nearest output ancestor has the bindings `env` in force. */
  ghost function StartTag(mode: Mode, path: Path, env: Env): seq<Event>
    requires path != [] && path[0].Element?
  {
    [Open(PrefixOf(path[0].ns), path[0].name)]
    + DeclEvents(Listing(Missing(Needed(mode, path), env)))
    + AttrEvents(AttrAxis(mode, path))
    + [Close]
  }

  ghost function Canon(mode: Mode, above: Path, node: Node, env: Env): seq<Event>
    decreases node, 0
  {
    match node
    case Text(content, visible) => if visible then [Chars(Escape(content, TEXT))] else []
    case Element(name, ns, _, _, children, visible, _) =>
      var path := [node] + above;
      if visible then
        StartTag(mode, path, env)
        + CanonList(mode, path, children, env + Needed(mode, path))
        + [End(PrefixOf(ns), name)]
      else CanonList(mode, path, children, env)
  }

  ghost function CanonList(mode: Mode, above: Path, nodes: seq<Node>, env: Env): seq<Event>
    decreases nodes, 0
  {
    if nodes == [] then [] else Canon(mode, above, nodes[0], env) + CanonList(mode, above, nodes[1..], env)
  }

  // ---------------------------------------------------------------- admissible input

  /** The selection does not split an element from its namespace nodes and selects no attribute of an omitted
      element. */
  ghost predicate SelectionOk(path: Path)
    requires path != [] && path[0].Element?
  {
    && (forall p :: p in Scope(path) ==> (p in path[0].nsVisible <==> path[0].visible))
    && (forall a :: a in path[0].attrs && a.visible ==> path[0].visible)
  }

  /** Every element of the subtree is namespace-consistent and selected as SelectionOk says. */
  ghost predicate Admissible(above: Path, node: Node)
    decreases node, 0
  {
    match node
    case Text(_, _) => true
    case Element(_, _, _, _, children, _, _) =>
      var path := [node] + above;
      NsOk(path) && SelectionOk(path) && AdmissibleList(path, children)
  }

  ghost predicate AdmissibleList(above: Path, nodes: seq<Node>)
    decreases nodes, 0
  {
    nodes == [] || (Admissible(above, nodes[0]) && AdmissibleList(above, nodes[1..]))
  }

  // ---------------------------------------------------------------- input that is refused

  /** No namespace URI that the element declares is relative. */
  predicate AbsoluteDefs(n: Node) {
    forall d :: d in Defs(n) ==> Absolute(d.href)
  }

  /** The run goes through without an error: no element of the subtree, selected or not, declares a relative URI. */
  predicate Accepted(node: Node)
    decreases node, 0
  {
    match node
    case Text(_, _) => true
    case Element(_, _, _, _, children, _, _) => AbsoluteDefs(node) && AcceptedList(children)
  }

  predicate AcceptedList(nodes: seq<Node>)
    decreases nodes, 0
  {
    nodes == [] || (Accepted(nodes[0]) && AcceptedList(nodes[1..]))
  }

  ghost predicate AbsolutePath(path: Path) {
    forall n :: n in path ==> AbsoluteDefs(n)
  }

  lemma {:induction false} DeclaredAbsolute(path: Path, p: string)
    requires AbsolutePath(path) && Declared(path, p).Some?
    ensures Absolute(Declared(path, p).value.href)
  {
    assert path[0] in path;
    if FindDecl(Defs(path[0]), p).None? {
      DeclaredAbsolute(path[1..], p);
    }
  }
}

/** The input tree of the canonicaliser and the namespace search of tree.c. */
module XmlTree {
  import opened XmlString

  /** A namespace declaration; `addr` is the identity of the structure, "" stands for a NULL prefix. */
  datatype Ns = Ns(addr: nat, prefix: string, href: string)

  const XML_NAMESPACE := "http://www.w3.org/XML/1998/namespace"

  /** The declaration of the xml prefix that the document holds (doc->oldNs). */
  const XML_NS := Ns(0, "xml", XML_NAMESPACE)

  datatype Attr = Attr(ns: Option<Ns>, name: string, value: string, visible: bool)

  /** `visible` and `nsVisible` record the answers of the visibility callback: for the node itself, and for
      the namespace node of each prefix on the element's namespace axis. */
  datatype Node =
    | Text(content: string, visible: bool)
    | Element(name: string, ns: Option<Ns>, nsDef: seq<Ns>, attrs: seq<Attr>, children: seq<Node>,
              visible: bool, nsVisible: set<string>)

  /** An element followed by its ancestors, nearest first. */
  type Path = seq<Node>

  function Defs(n: Node): seq<Ns> {
    if n.Element? then n.nsDef else []
  }

  /** The first declaration of the prefix in one nsDef list. */
  function FindDecl(defs: seq<Ns>, prefix: string): (r: Option<Ns>)
    ensures r.Some? ==> r.value in defs && r.value.prefix == prefix
    ensures r.None? ==> forall d :: d in defs ==> d.prefix != prefix
  {
    if defs == [] then None
    else if defs[0].prefix == prefix then Some(defs[0])
    else FindDecl(defs[1..], prefix)
  }

  /** The nearest declaration of the prefix on the element or an ancestor. */
  function Declared(path: Path, prefix: string): (r: Option<Ns>)
    ensures r.Some? ==> r.value.prefix == prefix
  {
    if path == [] then None
    else match FindDecl(Defs(path[0]), prefix)
      case Some(ns) => Some(ns)
      case None => Declared(path[1..], prefix)
  }

  /** The declaration stands at position i of the element k steps up, and nothing nearer or further in front declares
      the prefix. */
  ghost predicate DeclaredAt(path: Path, k: nat, i: nat, prefix: string)
    requires k < |path| && i < |Defs(path[k])|
  {
    && Defs(path[k])[i].prefix == prefix
    && (forall j :: 0 <= j < i ==> Defs(path[k])[j].prefix != prefix)
    && (forall j, d :: 0 <= j < k && d in Defs(path[j]) ==> d.prefix != prefix)
  }

  lemma FindDeclIsFirst(defs: seq<Ns>, i: nat)
    requires i < |defs| && forall j :: 0 <= j < i ==> defs[j].prefix != defs[i].prefix
    ensures FindDecl(defs, defs[i].prefix) == Some(defs[i])
  {
    if i > 0 { FindDeclIsFirst(defs[1..], i - 1); }
  }

  /** The nearest declaration hides those further up. */
  lemma {:induction false} DeclaredIsNearest(path: Path, k: nat, i: nat, prefix: string)
    requires k < |path| && i < |Defs(path[k])| && DeclaredAt(path, k, i, prefix)
    ensures Declared(path, prefix) == Some(Defs(path[k])[i])
    decreases k
  {
    if k == 0 {
      FindDeclIsFirst(Defs(path[0]), i);
    } else {
      assert FindDecl(Defs(path[0]), prefix).None?;
      forall j, d | 0 <= j < k - 1 && d in Defs(path[1..][j])
        ensures d.prefix != prefix
      {
        assert path[1..][j] == path[j + 1];
      }
      assert DeclaredAt(path[1..], k - 1, i, prefix);
      DeclaredIsNearest(path[1..], k - 1, i, prefix);
    }
  }

  /** xmlSearchNs: nearest declaration, where an ancestor's own namespace also counts. */
  function SearchNs(path: Path, prefix: string): Option<Ns> {
    if prefix == "xml" then Some(XML_NS) else SearchUp(path, prefix, true)
  }

  function SearchUp(path: Path, prefix: string, orig: bool): Option<Ns> {
    if path == [] then None
    else match FindDecl(Defs(path[0]), prefix)
      case Some(ns) => Some(ns)
      case None =>
        if !orig && path[0].Element? && path[0].ns.Some? && path[0].ns.value.prefix == prefix then path[0].ns
        else SearchUp(path[1..], prefix, false)
  }

  /** A namespace reference is the declaration that its prefix has at this element. */
  predicate RefOk(path: Path, ns: Ns) {
    if ns.prefix == "xml" then ns == XML_NS else Declared(path, ns.prefix) == Some(ns)
  }

  /** Namespaces in XML, sections 6.1 and 6.2, for one element: a name without namespace stands where no
      default is in scope, every reference is in scope, and a qualified attribute has a prefix. */
  predicate NsOk(path: Path)
    requires path != []
  {
    && path[0].Element?
    && (match path[0].ns
        case None => Declared(path, "").None? || Declared(path, "").value.href == ""
        case Some(ns) => RefOk(path, ns))
    && (forall a | a in path[0].attrs && a.ns.Some? :: a.ns.value.prefix != "" && RefOk(path, a.ns.value))
  }

  predicate Consistent(path: Path) {
    path == [] || (NsOk(path) && Consistent(path[1..]))
  }

  /** On namespace-consistent trees xmlSearchNs is the nearest declaration. */
  lemma {:induction false} SearchIsNearest(path: Path, prefix: string, orig: bool)
    requires Consistent(path) && prefix != "xml"
    ensures SearchUp(path, prefix, orig) == Declared(path, prefix)
  {
    if path != [] {
      SearchIsNearest(path[1..], prefix, false);
    }
  }
}

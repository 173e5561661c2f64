/** The canonical form does not depend on the order in which declarations and attributes are written. */
module C14nOrder {
  import opened XmlString
  import opened SortedList
  import opened XmlTree
  import opened C14nEscape
  import opened C14nSpec
  import opened C14nSorted
  import C14n

  /** Constraint of a well-formed tag (section 6.3 of Namespaces in XML): no prefix declared twice, no
      expanded attribute name twice, and a qualified attribute has a prefix. */
  ghost predicate WellFormed(e: Node)
    requires e.Element?
  {
    && (forall i, j :: 0 <= i < j < |e.nsDef| ==> e.nsDef[i].prefix != e.nsDef[j].prefix)
    && DistinctKeys(e.attrs)
  }

  /** The same well-formed tag up to the order of declarations and attributes. */
  ghost predicate SameTag(a: Node, b: Node) {
    && a.Element? && b.Element? && WellFormed(a) && WellFormed(b)
    && a.name == b.name && a.ns == b.ns && a.visible == b.visible && a.nsVisible == b.nsVisible
    && (forall d :: d in a.nsDef <==> d in b.nsDef)
    && (forall x :: x in a.attrs <==> x in b.attrs)
  }

  ghost predicate SamePath(p: Path, q: Path) {
    |p| == |q| && forall i :: 0 <= i < |p| ==> SameTag(p[i], q[i])
  }

  ghost predicate SameTree(a: Node, b: Node)
    decreases a, 0
  {
    if a.Text? then a == b
    else SameTag(a, b) && SameTrees(a.children, b.children)
  }

  ghost predicate SameTrees(a: seq<Node>, b: seq<Node>)
    decreases a, 0
  {
    |a| == |b| && (a != [] ==> SameTree(a[0], b[0]) && SameTrees(a[1..], b[1..]))
  }

  // ---------------------------------------------------------------- declarations

  lemma FindDeclSame(a: seq<Ns>, b: seq<Ns>, p: string)
    requires forall i, j :: 0 <= i < j < |b| ==> b[i].prefix != b[j].prefix
    requires forall d :: d in a <==> d in b
    ensures FindDecl(a, p) == FindDecl(b, p)
  {
  }

  lemma {:induction false} DeclaredSame(p: Path, q: Path, prefix: string)
    requires SamePath(p, q)
    ensures Declared(p, prefix) == Declared(q, prefix)
  {
    if p != [] {
      assert SameTag(p[0], q[0]);
      FindDeclSame(p[0].nsDef, q[0].nsDef, prefix);
      DeclaredSame(p[1..], q[1..], prefix);
    }
  }

  lemma NeededSame(mode: Mode, p: Path, q: Path)
    requires SamePath(p, q) && p != []
    ensures p[0].Element? && q[0].Element? && Needed(mode, p) == Needed(mode, q)
  {
    assert SameTag(p[0], q[0]);
    forall x
      ensures Declared(p, x) == Declared(q, x)
      ensures VisiblyUsed(p[0], x) == VisiblyUsed(q[0], x)
    {
      DeclaredSame(p, q, x);
    }
  }

  // ---------------------------------------------------------------- attributes

  lemma {:induction false} AddInheritedSame(list: seq<Attr>, p: Path, q: Path)
    requires Ordered(list) && SamePath(p, q)
    ensures AddInherited(list, p) == AddInherited(list, q)
    decreases |p|
  {
    if p != [] {
      assert SameTag(p[0], q[0]);
      AddXmlIs(list, p[0].attrs);
      AddXmlIs(list, q[0].attrs);
      UniqueSorted(AddXml(list, p[0].attrs), AddXml(list, q[0].attrs), AttrKey);
      AddInheritedSame(AddXml(list, p[0].attrs), p[1..], q[1..]);
    }
  }

  lemma AttrAxisSame(mode: Mode, p: Path, q: Path)
    requires SamePath(p, q) && p != []
    ensures p[0].Element? && q[0].Element? && AttrAxis(mode, p) == AttrAxis(mode, q)
  {
    assert SameTag(p[0], q[0]);
    AddVisibleIs([], p[0].attrs);
    AddVisibleIs([], q[0].attrs);
    UniqueSorted(AddVisible([], p[0].attrs), AddVisible([], q[0].attrs), AttrKey);
    if |p| > 1 {
      assert SameTag(p[1], q[1]);
      AddInheritedSame(AddVisible([], p[0].attrs), p[1..], q[1..]);
    }
  }

  // ---------------------------------------------------------------- the whole output

  /** Trees that differ only in the order of declarations and attributes have the same canonical form. */
  lemma {:induction false} CanonSame(mode: Mode, p: Path, q: Path, a: Node, b: Node, env: Env)
    requires SamePath(p, q) && SameTree(a, b)
    ensures Canon(mode, p, a, env) == Canon(mode, q, b, env)
    decreases a, 0
  {
    if a.Element? {
      var p', q' := [a] + p, [b] + q;
      assert SamePath(p', q');
      NeededSame(mode, p', q');
      AttrAxisSame(mode, p', q');
      CanonListSame(mode, p', q', a.children, b.children, if a.visible then env + Needed(mode, p') else env);
    }
  }

  lemma {:induction false} CanonListSame(mode: Mode, p: Path, q: Path, a: seq<Node>, b: seq<Node>, env: Env)
    requires SamePath(p, q) && SameTrees(a, b)
    ensures CanonList(mode, p, a, env) == CanonList(mode, q, b, env)
    decreases a, 0
  {
    if a != [] {
      CanonSame(mode, p, q, a[0], b[0], env);
      CanonListSame(mode, p, q, a[1..], b[1..], env);
    }
  }

  lemma ElementSame(p: Path, q: Path)
    requires SamePath(p, q) && p != []
    ensures p[0].Element? && q[0].Element?
    ensures NsOk(p) && SelectionOk(p) ==> NsOk(q) && SelectionOk(q)
  {
    assert SameTag(p[0], q[0]);
    forall x
      ensures Declared(p, x) == Declared(q, x)
    {
      DeclaredSame(p, q, x);
    }
  }

  lemma {:induction false} AdmissibleSame(p: Path, q: Path, a: Node, b: Node)
    requires SamePath(p, q) && SameTree(a, b) && Admissible(p, a)
    ensures Admissible(q, b)
    decreases a, 0
  {
    if a.Element? {
      var p', q' := [a] + p, [b] + q;
      assert SamePath(p', q');
      ElementSame(p', q');
      AdmissibleListSame(p', q', a.children, b.children);
    }
  }

  lemma {:induction false} AdmissibleListSame(p: Path, q: Path, a: seq<Node>, b: seq<Node>)
    requires SamePath(p, q) && SameTrees(a, b) && AdmissibleList(p, a)
    ensures AdmissibleList(q, b)
    decreases a, 0
  {
    if a != [] {
      AdmissibleSame(p, q, a[0], b[0]);
      AdmissibleListSame(p, q, a[1..], b[1..]);
    }
  }

  lemma {:induction false} AcceptedSame(a: seq<Node>, b: seq<Node>)
    requires SameTrees(a, b)
    ensures AcceptedList(a) <==> AcceptedList(b)
    decreases a
  {
    if a != [] {
      AcceptedSame(a[1..], b[1..]);
      if a[0].Element? {
        AcceptedSame(a[0].children, b[0].children);
      }
    }
  }

  /** Two runs of the canonicaliser on such documents end alike, and without an error leave the same output. */
  method ProcessBoth(mode: Mode, a: seq<Node>, b: seq<Node>)
      returns (okA: bool, okB: bool, bufA: seq<Event>, bufB: seq<Event>)
    requires SameTrees(a, b) && AdmissibleList([], a)
    ensures okA == okB == AcceptedList(a)
    ensures okA ==> bufA == bufB == CanonList(mode, [], a, map[])
  {
    var first := new C14n.C14NCtx(mode);
    var second := new C14n.C14NCtx(mode);
    okA := first.ProcessDocument(a);
    okB := second.ProcessDocument(b);
    AcceptedSame(a, b);
    AdmissibleListSame([], [], a, b);
    CanonListSame(mode, [], [], a, b, map[]);
    bufA, bufB := first.buf, second.buf;
  }
}

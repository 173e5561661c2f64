/** The stack of rendered namespaces: two growing arrays and the cursors that mark the window of the nearest
    output ancestor. */
module NsStack {
  import opened XmlString
  import opened XmlTree
  import opened C14nSpec
  import opened Memory

  const XML_NAMESPACES_DEFAULT := 16

  /** The last entry for each prefix. */
  ghost function Nearest(view: seq<Ns>): Env {
    if view == [] then map[]
    else Nearest(view[..|view| - 1])[view[|view| - 1].prefix := view[|view| - 1].href]
  }

  lemma {:induction false} NearestAppend(a: seq<Ns>, b: seq<Ns>)
    ensures Nearest(a + b) == Nearest(a) + Nearest(b)
    decreases |b|
  {
    if b == [] {
      assert a + b == a;
    } else {
      NearestAppend(a, b[..|b| - 1]);
      assert (a + b)[..|a + b| - 1] == a + b[..|b| - 1];
    }
  }

  lemma NearestPush(a: seq<Ns>, ns: Ns)
    ensures Nearest(a + [ns]) == Nearest(a)[ns.prefix := ns.href]
  {
    assert (a + [ns])[..|a|] == a;
  }

  /** The namespace node of the entry is in the node-set. */
  predicate NsVisible(ns: Ns, cur: Node) {
    cur.Element? && ns.prefix in cur.nsVisible
  }

  /** Where the windowed search stops looking: an empty default is searched on the whole stack. */
  function SearchStart(prevStart: nat, ns: Ns): nat {
    if ns.prefix == "" && ns.href == "" then 0 else prevStart
  }

  /** The nearest entry for the prefix inside the window decides. */
  ghost predicate WindowFound(view: seq<Ns>, prevStart: nat, ns: Ns)
    requires prevStart <= |view|
  {
    InForce(Nearest(view[SearchStart(prevStart, ns)..]), ns.prefix, ns.href)
  }

  /** Every entry's namespace node is visible on the element that pushed it. */
  ghost predicate AllSeen(view: seq<Ns>, nodes: seq<Node>)
    requires |view| == |nodes|
  {
    forall i :: 0 <= i < |view| ==> NsVisible(view[i], nodes[i])
  }

  /** The nearest entry for the prefix decides, and it must also be visible. */
  ghost predicate ExcFound(view: seq<Ns>, nodes: seq<Node>, ns: Ns)
    requires |view| == |nodes|
  {
    if view == [] then ns.prefix == "" && ns.href == ""
    else
      var i := |view| - 1;
      if view[i].prefix == ns.prefix then view[i].href == ns.href && NsVisible(view[i], nodes[i])
      else ExcFound(view[..i], nodes[..i], ns)
  }

  /** Where every entry is visible, this search tells whether the binding is in force. */
  lemma {:induction false} ExcFoundSeen(view: seq<Ns>, nodes: seq<Node>, ns: Ns)
    requires |view| == |nodes| && AllSeen(view, nodes)
    ensures ExcFound(view, nodes, ns) == InForce(Nearest(view), ns.prefix, ns.href)
    decreases |view|
  {
    if view != [] {
      ExcFoundSeen(view[..|view| - 1], nodes[..|view| - 1], ns);
    }
  }

  /** xmlC14NVisibleNsStack. */
  class VisibleNsStack {
    var nsCurEnd: nat
    var nsPrevStart: nat
    var nsPrevEnd: nat
    var nsTab: array<Ns>
    var nodeTab: array<Node>

    ghost predicate Valid()
      reads this
    {
      && nsPrevStart <= nsCurEnd && nsPrevEnd <= nsCurEnd
      && nsCurEnd <= nsTab.Length == nodeTab.Length
    }

    ghost function Repr(): set<object>
      reads this
    {
      {this, nsTab, nodeTab}
    }

    ghost function View(): seq<Ns>
      requires Valid()
      reads this, Repr()
    {
      nsTab[..nsCurEnd]
    }

    /** The elements that pushed the entries. */
    ghost function Nodes(): (r: seq<Node>)
      requires Valid()
      reads this, Repr()
      ensures |r| == |View()|
    {
      nodeTab[..nsCurEnd]
    }

    /** The cursors and the entries are these. */
    ghost predicate SameAs(prevStart: nat, prevEnd: nat, view: seq<Ns>)
      requires Valid()
      reads this, Repr()
    {
      nsPrevStart == prevStart && nsPrevEnd == prevEnd && View() == view
    }

    constructor ()
      ensures Valid() && View() == [] && nsPrevStart == nsPrevEnd == 0
      ensures fresh(Repr())
    {
      nsCurEnd, nsPrevStart, nsPrevEnd := 0, 0, 0;
      nsTab := new Ns[0];
      nodeTab := new Node[0];
    }

    /** The growth step of xmlC14NVisibleNsStackAdd: 16 entries at first, then twice as many. */
    method Grow()
      requires Valid() && nsCurEnd == nsTab.Length
      modifies this`nsTab, this`nodeTab
      ensures Valid() && fresh(nsTab) && fresh(nodeTab)
      ensures nsTab.Length == if old(nsTab.Length) == 0 then XML_NAMESPACES_DEFAULT else 2 * old(nsTab.Length)
      ensures View() == old(View()) && Nodes() == old(Nodes())
    {
      var size := if nsTab.Length == 0 then XML_NAMESPACES_DEFAULT else 2 * nsTab.Length;
      var tab := Realloc(nsTab, size);
      var nodes := Realloc(nodeTab, size);
      assert forall i :: 0 <= i < nsCurEnd ==>
               tab[i] == tab[..nsCurEnd][i] == nsTab[i] && nodes[i] == nodes[..nsCurEnd][i] == nodeTab[i];
      nsTab, nodeTab := tab, nodes;
    }

    /** xmlC14NVisibleNsStackAdd. */
    method Add(ns: Ns, node: Node)
      requires Valid()
      modifies Repr()
      ensures Valid() && fresh(Repr() - old(Repr()))
      ensures View() == old(View()) + [ns] && Nodes() == old(Nodes()) + [node]
      ensures nsPrevStart == old(nsPrevStart) && nsPrevEnd == old(nsPrevEnd)
    {
      if nsCurEnd == nsTab.Length {
        Grow();
      }
      nsTab[nsCurEnd] := ns;
      nodeTab[nsCurEnd] := node;
      nsCurEnd := nsCurEnd + 1;
    }

    /** xmlC14NVisibleNsStackRestore to cursors that were saved earlier. */
    method Restore(curEnd: nat, prevStart: nat, prevEnd: nat)
      requires Valid() && curEnd <= nsCurEnd && prevStart <= curEnd && prevEnd <= curEnd
      modifies this`nsCurEnd, this`nsPrevStart, this`nsPrevEnd
      ensures Valid() && nsCurEnd == curEnd && nsPrevStart == prevStart && nsPrevEnd == prevEnd
      ensures View() == old(View()[..curEnd]) && Nodes() == old(Nodes()[..curEnd])
    {
      nsCurEnd, nsPrevStart, nsPrevEnd := curEnd, prevStart, prevEnd;
    }

    /** xmlC14NVisibleNsStackShift. */
    method Shift()
      requires Valid()
      modifies this`nsPrevStart, this`nsPrevEnd
      ensures Valid() && nsPrevStart == old(nsPrevEnd) && nsPrevEnd == nsCurEnd
    {
      nsPrevStart := nsPrevEnd;
      nsPrevEnd := nsCurEnd;
    }

    /** xmlC14NVisibleNsStackFind. */
    method Find(ns: Ns) returns (r: bool)
      requires Valid()
      ensures r == WindowFound(View(), nsPrevStart, ns)
    {
      var start := SearchStart(nsPrevStart, ns);
      ghost var window := View()[start..];
      var i := nsCurEnd;
      assert window[..i - start] == window;
      while i > start
        invariant start <= i <= nsCurEnd
        invariant InForce(Nearest(window), ns.prefix, ns.href)
               == InForce(Nearest(window[..i - start]), ns.prefix, ns.href)
      {
        i := i - 1;
        assert window[..i + 1 - start][..i - start] == window[..i - start];
        assert window[..i + 1 - start][i - start] == nsTab[i];
        if nsTab[i].prefix == ns.prefix {
          return nsTab[i].href == ns.href;
        }
      }
      return ns.prefix == "" && ns.href == "";
    }

    /** xmlExcC14NVisibleNsStackFind: the whole stack is searched, and a hit must also be visible. */
    method ExcFind(ns: Ns) returns (r: bool)
      requires Valid()
      ensures r == ExcFound(View(), Nodes(), ns)
    {
      var i := nsCurEnd;
      assert View()[..i] == View() && Nodes()[..i] == Nodes();
      while i > 0
        invariant 0 <= i <= nsCurEnd
        invariant ExcFound(View(), Nodes(), ns) == ExcFound(View()[..i], Nodes()[..i], ns)
      {
        i := i - 1;
        assert View()[..i + 1][..i] == View()[..i] && Nodes()[..i + 1][..i] == Nodes()[..i];
        if nsTab[i].prefix == ns.prefix {
          return nsTab[i].href == ns.href && NsVisible(nsTab[i], nodeTab[i]);
        }
      }
      return ns.prefix == "" && ns.href == "";
    }
  }
}

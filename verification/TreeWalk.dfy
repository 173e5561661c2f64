/** The stackless walk that lists the structure of a subtree: it follows child, sibling and parent links, and must
    agree with recursion. */
module TreeWalk {
  import opened XmlString

  datatype Kind = Document | ElementNode | EntityReference | OtherNode

  /** A node in memory, with its links. */
  datatype Record = Record(
    kind: Kind, name: string, children: Option<nat>, next: Option<nat>, parent: Option<nat>)

  type Store = map<nat, Record>

  /** The subtree that a node in memory stands for. */
  datatype Tree = Tree(id: nat, kind: Kind, name: string, kids: seq<Tree>)

  function FirstId(ts: seq<Tree>): Option<nat> {
    if ts == [] then None else Some(ts[0].id)
  }

  function NextId(ts: seq<Tree>, i: nat): Option<nat> {
    if i + 1 < |ts| then Some(ts[i + 1].id) else None
  }

  /** The memory holds the tree, linked to the given sibling and parent. */
  ghost predicate Stores(mem: Store, t: Tree, next: Option<nat>, parent: Option<nat>) {
    && t.id in mem && mem[t.id] == Record(t.kind, t.name, FirstId(t.kids), next, parent)
    && forall i :: 0 <= i < |t.kids| ==> Stores(mem, t.kids[i], NextId(t.kids, i), Some(t.id))
  }

  ghost predicate Stored(mem: Store, t: Tree) {
    exists next, parent :: Stores(mem, t, next, parent)
  }

  ghost predicate NoDocument(t: Tree) {
    t.kind != Document && forall i :: 0 <= i < |t.kids| ==> NoDocument(t.kids[i])
  }

  /** Documents are only at the top. */
  ghost predicate DocumentOnTop(t: Tree) {
    forall i :: 0 <= i < |t.kids| ==> NoDocument(t.kids[i])
  }

  // ---------------------------------------------------------------- recursion

  datatype Visit = Visit(id: nat, indent: int)

  datatype Line = Slash | Name(indent: int, name: string)

  /** The children of a document are not indented. */
  function Inner(t: Tree, depth: nat): nat {
    if t.kind == Document then depth else depth + 1
  }

  /** Recursive pre-order, not entering entity references. */
  function PreOrder(t: Tree, depth: nat): (r: seq<Visit>)
    ensures r != []
    decreases t, 0
  {
    [Visit(t.id, depth)] + if t.kind == EntityReference then [] else PreOrderFrom(t.kids, 0, Inner(t, depth))
  }

  function PreOrderFrom(ts: seq<Tree>, i: nat, depth: nat): seq<Visit>
    requires i <= |ts|
    decreases ts, |ts| - i
  {
    if i == |ts| then [] else PreOrder(ts[i], depth) + PreOrderFrom(ts, i + 1, depth)
  }

  /** What is printed for a visit. */
  function LineOf(mem: Store, v: Visit): seq<Line> {
    if v.id !in mem then []
    else match mem[v.id].kind
      case Document => [Slash]
      case ElementNode => [Name(v.indent, mem[v.id].name)]
      case _ => []
  }

  function Lines(mem: Store, vs: seq<Visit>): seq<Line> {
    if vs == [] then [] else Lines(mem, vs[..|vs| - 1]) + LineOf(mem, vs[|vs| - 1])
  }

  /** The listing as recursion prints it: every element below the start at its depth. */
  function Listing(t: Tree, depth: nat): seq<Line>
    decreases t, 0
  {
    var own :=
      match t.kind
      case Document => [Slash]
      case ElementNode => [Name(depth, t.name)]
      case _ => [];
    own + if t.kind == EntityReference then [] else ListingFrom(t.kids, 0, Inner(t, depth))
  }

  function ListingFrom(ts: seq<Tree>, i: nat, depth: nat): seq<Line>
    requires i <= |ts|
    decreases ts, |ts| - i
  {
    if i == |ts| then [] else Listing(ts[i], depth) + ListingFrom(ts, i + 1, depth)
  }

  lemma {:induction false} LinesAppend(mem: Store, a: seq<Visit>, b: seq<Visit>)
    ensures Lines(mem, a + b) == Lines(mem, a) + Lines(mem, b)
    decreases |b|
  {
    if b == [] {
      assert a + b == a;
    } else {
      assert (a + b)[..|a + b| - 1] == a + b[..|b| - 1];
      LinesAppend(mem, a, b[..|b| - 1]);
    }
  }

  /** Printing along the pre-order gives the recursive listing. */
  lemma {:induction false} ListingIsLines(mem: Store, t: Tree, next: Option<nat>, parent: Option<nat>, depth: nat)
    requires Stores(mem, t, next, parent)
    ensures Lines(mem, PreOrder(t, depth)) == Listing(t, depth)
    decreases t, 0
  {
    var own := [Visit(t.id, depth)];
    assert own[..0] == [];
    assert Lines(mem, own) == LineOf(mem, own[0]);
    if t.kind != EntityReference {
      ListingFromIsLines(mem, t, 0, Inner(t, depth));
      LinesAppend(mem, own, PreOrderFrom(t.kids, 0, Inner(t, depth)));
    } else {
      assert own + [] == own;
    }
  }

  lemma {:induction false} ListingFromIsLines(mem: Store, t: Tree, i: nat, depth: nat)
    requires i <= |t.kids|
    requires forall j :: 0 <= j < |t.kids| ==> Stores(mem, t.kids[j], NextId(t.kids, j), Some(t.id))
    ensures Lines(mem, PreOrderFrom(t.kids, i, depth)) == ListingFrom(t.kids, i, depth)
    decreases t.kids, |t.kids| - i
  {
    if i < |t.kids| {
      ListingIsLines(mem, t.kids[i], NextId(t.kids, i), Some(t.id), depth);
      ListingFromIsLines(mem, t, i + 1, depth);
      LinesAppend(mem, PreOrder(t.kids[i], depth), PreOrderFrom(t.kids, i + 1, depth));
    }
  }

  // ---------------------------------------------------------------- places in a tree

  /** A place that the walk can reach: the child positions on the way down. */
  predicate Reaches(t: Tree, p: seq<nat>) {
    p == [] || (t.kind != EntityReference && p[0] < |t.kids| && Reaches(t.kids[p[0]], p[1..]))
  }

  function Sub(t: Tree, p: seq<nat>): Tree
    requires Reaches(t, p)
    decreases |p|
  {
    if p == [] then t else Sub(t.kids[p[0]], p[1..])
  }

  function Depth(t: Tree, p: seq<nat>, depth: nat): nat
    requires Reaches(t, p)
    decreases |p|
  {
    if p == [] then depth else Depth(t.kids[p[0]], p[1..], Inner(t, depth))
  }

  /** What pre-order still has to visit after everything below a place. */
  function Rest(t: Tree, p: seq<nat>, depth: nat): seq<Visit>
    requires Reaches(t, p)
    decreases |p|
  {
    if p == [] then []
    else Rest(t.kids[p[0]], p[1..], Inner(t, depth)) + PreOrderFrom(t.kids, p[0] + 1, Inner(t, depth))
  }

  /** Going down to a child. */
  lemma {:induction false} Below(t: Tree, q: seq<nat>, k: nat, depth: nat)
    requires Reaches(t, q) && Sub(t, q).kind != EntityReference && k < |Sub(t, q).kids|
    ensures Reaches(t, q + [k]) && Sub(t, q + [k]) == Sub(t, q).kids[k]
    ensures
      var inner := Inner(Sub(t, q), Depth(t, q, depth));
      && Depth(t, q + [k], depth) == inner
      && Rest(t, q + [k], depth) == PreOrderFrom(Sub(t, q).kids, k + 1, inner) + Rest(t, q, depth)
    decreases |q|
  {
    var p := q + [k];
    if q == [] {
      assert p[1..] == [];
    } else {
      assert p[1..] == q[1..] + [k] && p[0] == q[0];
      Below(t.kids[q[0]], q[1..], k, Inner(t, depth));
    }
  }

  /** A reachable place other than the top is a child of a reachable place. */
  lemma {:induction false} Above(t: Tree, q: seq<nat>, k: nat)
    requires Reaches(t, q + [k])
    ensures Reaches(t, q) && Sub(t, q).kind != EntityReference && k < |Sub(t, q).kids|
    decreases |q|
  {
    var p := q + [k];
    if q != [] {
      assert p[1..] == q[1..] + [k] && p[0] == q[0];
      Above(t.kids[q[0]], q[1..], k);
    } else {
      assert p[1..] == [];
    }
  }

  /** Every place is stored with its own links. */
  lemma {:induction false} SubStored(mem: Store, t: Tree, p: seq<nat>, next: Option<nat>, parent: Option<nat>)
    requires Reaches(t, p) && Stores(mem, t, next, parent)
    ensures Stored(mem, Sub(t, p))
    decreases |p|
  {
    if p != [] {
      SubStored(mem, t.kids[p[0]], p[1..], NextId(t.kids, p[0]), Some(t.id));
    }
  }

  /** The links of a child lead to its siblings and its parent. */
  lemma ChildLinks(mem: Store, t: Tree, q: seq<nat>, k: nat, next: Option<nat>, parent: Option<nat>)
    requires Reaches(t, q + [k]) && Stores(mem, t, next, parent)
    ensures Reaches(t, q) && k < |Sub(t, q).kids| && Sub(t, q + [k]) == Sub(t, q).kids[k]
    ensures Stores(mem, Sub(t, q + [k]), NextId(Sub(t, q).kids, k), Some(Sub(t, q).id))
  {
    Above(t, q, k);
    Below(t, q, k, 0);
    SubStored(mem, t, q, next, parent);
    var n, u :| Stores(mem, Sub(t, q), n, u);
  }

  // ---------------------------------------------------------------- the top is met only once

  function Size(t: Tree): (r: nat)
    ensures r > 0
    decreases t, 0
  {
    1 + SizeFrom(t.kids, 0)
  }

  function SizeFrom(ts: seq<Tree>, i: nat): nat
    requires i <= |ts|
    decreases ts, |ts| - i
  {
    if i == |ts| then 0 else Size(ts[i]) + SizeFrom(ts, i + 1)
  }

  lemma {:induction false} KidSmaller(ts: seq<Tree>, i: nat, k: nat)
    requires i <= k < |ts|
    ensures Size(ts[k]) <= SizeFrom(ts, i)
    decreases k - i
  {
    if i < k {
      KidSmaller(ts, i + 1, k);
    }
  }

  lemma {:induction false} SubSmaller(t: Tree, p: seq<nat>)
    requires Reaches(t, p)
    ensures Size(Sub(t, p)) <= Size(t)
    ensures p != [] ==> Size(Sub(t, p)) < Size(t)
    decreases |p|
  {
    if p != [] {
      SubSmaller(t.kids[p[0]], p[1..]);
      KidSmaller(t.kids, 0, p[0]);
    }
  }

  /** Memory determines the tree at a node. */
  lemma {:induction false} SameTree(
      mem: Store, a: Tree, b: Tree, n: Option<nat>, u: Option<nat>, m: Option<nat>, v: Option<nat>)
    requires Stores(mem, a, n, u) && Stores(mem, b, m, v) && a.id == b.id
    ensures a == b
    decreases a, 0
  {
    if |a.kids| > 0 {
      assert FirstId(a.kids) == FirstId(b.kids);
      SameKids(mem, a, b, 0);
    } else {
      assert FirstId(b.kids) == None;
    }
    assert a.kids == b.kids;
  }

  lemma {:induction false} SameKids(mem: Store, a: Tree, b: Tree, i: nat)
    requires i < |a.kids| && i < |b.kids| && a.kids[i].id == b.kids[i].id
    requires forall j :: 0 <= j < |a.kids| ==> Stores(mem, a.kids[j], NextId(a.kids, j), Some(a.id))
    requires forall j :: 0 <= j < |b.kids| ==> Stores(mem, b.kids[j], NextId(b.kids, j), Some(b.id))
    ensures |a.kids| == |b.kids| && forall j :: i <= j < |a.kids| ==> a.kids[j] == b.kids[j]
    decreases a.kids, |a.kids| - i
  {
    SameTree(mem, a.kids[i], b.kids[i], NextId(a.kids, i), Some(a.id), NextId(b.kids, i), Some(b.id));
    SameNext(mem, a.kids[i], NextId(a.kids, i), Some(a.id), NextId(b.kids, i), Some(b.id));
    if i + 1 < |a.kids| && i + 1 < |b.kids| {
      SameKids(mem, a, b, i + 1);
    }
  }

  lemma SameNext(mem: Store, t: Tree, n: Option<nat>, u: Option<nat>, m: Option<nat>, v: Option<nat>)
    requires Stores(mem, t, n, u) && Stores(mem, t, m, v)
    ensures n == m
  {
  }

  /** No place below the top is the top node again. */
  lemma TopOnce(mem: Store, t: Tree, p: seq<nat>, next: Option<nat>, parent: Option<nat>)
    requires Reaches(t, p) && p != [] && Stores(mem, t, next, parent)
    ensures Sub(t, p).id != t.id
  {
    SubStored(mem, t, p, next, parent);
    var n, u :| Stores(mem, Sub(t, p), n, u);
    SubSmaller(t, p);
    if Sub(t, p).id == t.id {
      SameTree(mem, Sub(t, p), t, n, u, next, parent);
    }
  }

  // ---------------------------------------------------------------- the walk

  function Front(p: seq<nat>): seq<nat>
    requires p != []
  {
    p[..|p| - 1]
  }

  function Last(p: seq<nat>): nat
    requires p != []
  {
    p[|p| - 1]
  }

  /** What the links of a reachable node say about its place. */
  lemma NodeAt(mem: Store, t: Tree, p: seq<nat>)
    requires Stored(mem, t) && Reaches(t, p)
    ensures
      var s := Sub(t, p);
      && s.id in mem && mem[s.id].kind == s.kind && mem[s.id].children == FirstId(s.kids)
      && (p == [] <==> s.id == t.id)
    ensures p != [] ==>
      && Reaches(t, Front(p)) && Last(p) < |Sub(t, Front(p)).kids|
      && Sub(t, Front(p)).kind != EntityReference && Sub(t, p) == Sub(t, Front(p)).kids[Last(p)]
      && mem[Sub(t, p).id].next == NextId(Sub(t, Front(p)).kids, Last(p))
      && mem[Sub(t, p).id].parent == Some(Sub(t, Front(p)).id)
  {
    var next, parent :| Stores(mem, t, next, parent);
    if p != [] {
      var q, k := Front(p), Last(p);
      assert p == q + [k];
      Above(t, q, k);
      ChildLinks(mem, t, q, k, next, parent);
      TopOnce(mem, t, p, next, parent);
    }
  }

  // ---------------------------------------------------------------- no node is visited twice

  /** The next links lead to the end of the siblings, so no sibling is stored twice. */
  lemma {:induction false} SiblingsDiffer(mem: Store, ts: seq<Tree>, i: nat, j: nat)
    requires i < j < |ts|
    requires forall k :: 0 <= k < |ts| ==> ts[k].id in mem && mem[ts[k].id].next == NextId(ts, k)
    ensures ts[i].id != ts[j].id
    decreases |ts| - j
  {
    if ts[i].id == ts[j].id {
      assert NextId(ts, i) == NextId(ts, j);
      if j + 1 < |ts| {
        SiblingsDiffer(mem, ts, i + 1, j + 1);
      }
    }
  }

  lemma SiblingLinks(mem: Store, t: Tree)
    requires Stored(mem, t)
    ensures forall k :: 0 <= k < |t.kids| ==> t.kids[k].id in mem && mem[t.kids[k].id].next == NextId(t.kids, k)
  {
    forall k | 0 <= k < |t.kids|
      ensures t.kids[k].id in mem && mem[t.kids[k].id].next == NextId(t.kids, k)
    {
      assert Stores(mem, t.kids[k], NextId(t.kids, k), Some(t.id));
    }
  }

  lemma SamePosition(mem: Store, t: Tree, i: nat, j: nat)
    requires Stored(mem, t) && i < |t.kids| && j < |t.kids| && t.kids[i].id == t.kids[j].id
    ensures i == j
  {
    SiblingLinks(mem, t);
    if i < j {
      SiblingsDiffer(mem, t.kids, i, j);
    } else if j < i {
      SiblingsDiffer(mem, t.kids, j, i);
    }
  }

  /** The parent links lead to the top, so a node has only one place. */
  lemma {:induction false} PlaceUnique(mem: Store, t: Tree, p: seq<nat>, q: seq<nat>)
    requires Stored(mem, t) && Reaches(t, p) && Reaches(t, q) && Sub(t, p).id == Sub(t, q).id
    ensures p == q
    decreases |p|
  {
    NodeAt(mem, t, p);
    NodeAt(mem, t, q);
    if p != [] {
      PlaceUnique(mem, t, Front(p), Front(q));
      var up := Sub(t, Front(p));
      var next, parent :| Stores(mem, t, next, parent);
      SubStored(mem, t, Front(p), next, parent);
      SamePosition(mem, up, Last(p), Last(q));
      assert p == Front(p) + [Last(p)] && q == Front(q) + [Last(q)];
    }
  }

  lemma {:induction false} PlaceOf(t: Tree, depth: nat, v: Visit) returns (p: seq<nat>)
    requires v in PreOrder(t, depth)
    ensures Reaches(t, p) && Sub(t, p).id == v.id
    decreases t, 0
  {
    if v.id == t.id {
      p := [];
    } else {
      var k, rest := PlaceFrom(t.kids, 0, Inner(t, depth), v);
      p := [k] + rest;
    }
  }

  lemma {:induction false} PlaceFrom(ts: seq<Tree>, i: nat, depth: nat, v: Visit) returns (k: nat, p: seq<nat>)
    requires i <= |ts| && v in PreOrderFrom(ts, i, depth)
    ensures i <= k < |ts| && Reaches(ts[k], p) && Sub(ts[k], p).id == v.id
    decreases ts, |ts| - i
  {
    if v in PreOrder(ts[i], depth) {
      k := i;
      p := PlaceOf(ts[i], depth, v);
    } else {
      k, p := PlaceFrom(ts, i + 1, depth, v);
    }
  }

  ghost predicate NoneTwice(vs: seq<Visit>) {
    forall i, j :: 0 <= i < j < |vs| ==> vs[i].id != vs[j].id
  }

  lemma NoneTwiceAppend(a: seq<Visit>, b: seq<Visit>)
    requires NoneTwice(a) && NoneTwice(b) && forall v, w :: v in a && w in b ==> v.id != w.id
    ensures NoneTwice(a + b)
  {
  }

  /** Pre-order visits every node of a stored tree at most once. */
  lemma {:induction false} VisitedOnce(mem: Store, t: Tree, depth: nat)
    requires Stored(mem, t)
    ensures NoneTwice(PreOrder(t, depth))
    decreases t, 0
  {
    if t.kind != EntityReference {
      var below := PreOrderFrom(t.kids, 0, Inner(t, depth));
      VisitedOnceFrom(mem, t, 0, Inner(t, depth));
      forall v | v in below
        ensures v.id != t.id
      {
        var k, p := PlaceFrom(t.kids, 0, Inner(t, depth), v);
        assert ([k] + p)[1..] == p;
        NodeAt(mem, t, [k] + p);
      }
      NoneTwiceAppend([Visit(t.id, depth)], below);
    }
  }

  lemma {:induction false} VisitedOnceFrom(mem: Store, t: Tree, i: nat, depth: nat)
    requires Stored(mem, t) && t.kind != EntityReference && i <= |t.kids|
    ensures NoneTwice(PreOrderFrom(t.kids, i, depth))
    decreases t.kids, |t.kids| - i
  {
    if i < |t.kids| {
      var next, parent :| Stores(mem, t, next, parent);
      assert Stores(mem, t.kids[i], NextId(t.kids, i), Some(t.id));
      VisitedOnce(mem, t.kids[i], depth);
      VisitedOnceFrom(mem, t, i + 1, depth);
      forall v, w | v in PreOrder(t.kids[i], depth) && w in PreOrderFrom(t.kids, i + 1, depth)
        ensures v.id != w.id
      {
        KidsApart(mem, t, i, depth, v, w);
      }
      NoneTwiceAppend(PreOrder(t.kids[i], depth), PreOrderFrom(t.kids, i + 1, depth));
    }
  }

  lemma KidsApart(mem: Store, t: Tree, i: nat, depth: nat, v: Visit, w: Visit)
    requires Stored(mem, t) && t.kind != EntityReference && i < |t.kids|
    requires v in PreOrder(t.kids[i], depth) && w in PreOrderFrom(t.kids, i + 1, depth)
    ensures v.id != w.id
  {
    var p := PlaceOf(t.kids[i], depth, v);
    var k, q := PlaceFrom(t.kids, i + 1, depth, w);
    assert ([i] + p)[1..] == p && ([k] + q)[1..] == q;
    assert ([i] + p)[0] == i && ([k] + q)[0] == k;
    if v.id == w.id {
      PlaceUnique(mem, t, [i] + p, [k] + q);
    }
  }

  /** Levels below a document are one less deep. */
  function Base(t: Tree): nat {
    if t.kind == Document then 1 else 0
  }

  lemma {:induction false} DepthBelow(t: Tree, p: seq<nat>, depth: nat)
    requires NoDocument(t) && Reaches(t, p)
    ensures Depth(t, p, depth) == depth + |p| && Sub(t, p).kind != Document
    decreases |p|
  {
    if p != [] {
      DepthBelow(t.kids[p[0]], p[1..], depth + 1);
    }
  }

  lemma DepthIs(t: Tree, p: seq<nat>)
    requires DocumentOnTop(t) && Reaches(t, p)
    ensures Depth(t, p, 0) == if p == [] then 0 else |p| - Base(t)
    ensures p != [] ==> Sub(t, p).kind != Document
  {
    if p != [] {
      DepthBelow(t.kids[p[0]], p[1..], Inner(t, 0));
    }
  }

  lemma Associative(a: seq<Visit>, b: seq<Visit>, c: seq<Visit>)
    ensures a + b + c == a + (b + c)
  {
  }

  lemma NothingAdded(a: seq<Visit>)
    ensures [] + a == a && a + [] == a
  {
  }

  /** Behind a child comes its next sibling, or whatever comes behind the parent. */
  lemma Behind(t: Tree, q: seq<nat>, k: nat)
    requires Reaches(t, q) && Sub(t, q).kind != EntityReference && k < |Sub(t, q).kids|
    ensures Reaches(t, q + [k])
    ensures k + 1 < |Sub(t, q).kids| ==>
      && Reaches(t, q + [k + 1]) && Sub(t, q + [k + 1]) == Sub(t, q).kids[k + 1]
      && Rest(t, q + [k], 0) == PreOrder(Sub(t, q + [k + 1]), Depth(t, q + [k + 1], 0)) + Rest(t, q + [k + 1], 0)
    ensures k + 1 == |Sub(t, q).kids| ==> Rest(t, q + [k], 0) == Rest(t, q, 0)
  {
    var kids, inner := Sub(t, q).kids, Inner(Sub(t, q), Depth(t, q, 0));
    Below(t, q, k, 0);
    if k + 1 < |kids| {
      Below(t, q, k + 1, 0);
      Associative(PreOrder(kids[k + 1], inner), PreOrderFrom(kids, k + 2, inner), Rest(t, q, 0));
    } else {
      NothingAdded(Rest(t, q, 0));
    }
  }

  /** A place has been left for another, from which the rest of the walk goes on; None when nothing is left. */
  ghost predicate GoesOn(t: Tree, rest: seq<Visit>, node: Option<nat>, indent: int, p: seq<nat>) {
    if node.None? then rest == []
    else
      && Reaches(t, p) && Sub(t, p).id == node.value && indent == Depth(t, p, 0)
      && rest == PreOrder(Sub(t, p), Depth(t, p, 0)) + Rest(t, p, 0)
  }

  /** The node that comes next is the first one left to visit, at its indent. */
  predicate ComesNext(rest: seq<Visit>, node: Option<nat>, indent: int) {
    if rest == [] then node.None? else node == Some(rest[0].id) && indent == rest[0].indent
  }

  lemma GoesOnNext(t: Tree, rest: seq<Visit>, node: Option<nat>, indent: int, p: seq<nat>)
    requires GoesOn(t, rest, node, indent, p)
    ensures ComesNext(rest, node, indent)
  {
    if node.Some? {
      RestBegins(t, p, node.value, indent, rest);
    }
  }

  /** To the next sibling. */
  lemma Sideways(t: Tree, q: seq<nat>, k: nat, indent: int)
    requires DocumentOnTop(t) && Reaches(t, q) && Sub(t, q).kind != EntityReference && k + 1 < |Sub(t, q).kids|
    requires indent == |q| + 1 - Base(t)
    ensures Reaches(t, q + [k])
    ensures GoesOn(t, Rest(t, q + [k], 0), NextId(Sub(t, q).kids, k), indent, q + [k + 1])
  {
    Behind(t, q, k);
    DepthIs(t, q + [k + 1]);
  }

  /** To the first child. */
  lemma Down(mem: Store, t: Tree, p: seq<nat>, rest: seq<Visit>)
    requires Stored(mem, t) && DocumentOnTop(t) && Reaches(t, p)
    requires Sub(t, p).kind != EntityReference && Sub(t, p).kids != []
    requires rest == PreOrderFrom(Sub(t, p).kids, 0, Inner(Sub(t, p), Depth(t, p, 0))) + Rest(t, p, 0)
    ensures GoesOn(t, rest, FirstId(Sub(t, p).kids), Inner(Sub(t, p), Depth(t, p, 0)), p + [0])
  {
    var kids, inner := Sub(t, p).kids, Inner(Sub(t, p), Depth(t, p, 0));
    Below(t, p, 0, 0);
    Associative(PreOrder(kids[0], inner), PreOrderFrom(kids, 1, inner), Rest(t, p, 0));
  }

  /** The next place behind a node that has a next sibling, in terms of its links. */
  lemma ToSibling(mem: Store, t: Tree, p: seq<nat>, n: nat, indent: int)
    requires Stored(mem, t) && DocumentOnTop(t) && Reaches(t, p) && p != []
    requires Sub(t, p).id == n && n in mem && mem[n].next.Some? && indent == |p| - Base(t)
    ensures GoesOn(t, Rest(t, p, 0), mem[n].next, indent, Front(p) + [Last(p) + 1])
  {
    var q, k := Front(p), Last(p);
    var next, parent :| Stores(mem, t, next, parent);
    assert p == q + [k];
    Above(t, q, k);
    ChildLinks(mem, t, q, k, next, parent);
    Sideways(t, q, k, indent);
  }

  /** Behind a node without a next sibling comes what comes behind its parent. */
  lemma ToParent(mem: Store, t: Tree, p: seq<nat>, n: nat)
    requires Stored(mem, t) && Reaches(t, p) && p != [] && Sub(t, p).id == n && n in mem && mem[n].next.None?
    ensures Reaches(t, Front(p)) && Rest(t, p, 0) == Rest(t, Front(p), 0)
    ensures
      var u := Sub(t, Front(p)).id;
      && mem[n].parent == Some(u) && u in mem && (u == t.id <==> Front(p) == [])
      && (u != t.id ==> mem[u].parent.Some?)
  {
    NodeAt(mem, t, p);
    assert p == Front(p) + [Last(p)];
    Behind(t, Front(p), Last(p));
    NodeAt(mem, t, Front(p));
  }

  /** The inner loop of xmlShellDu: up to the first ancestor inside the subtree that has a next sibling. */
  method Climb(mem: Store, tree: nat, start: nat, level: int, ghost t: Tree, ghost p: seq<nat>)
      returns (node: Option<nat>, indent: int, ghost q: seq<nat>)
    requires Stored(mem, t) && DocumentOnTop(t) && t.id == tree
    requires Reaches(t, p) && p != [] && Sub(t, p).id == start && level == |p| - Base(t)
    requires start != tree && start in mem && mem[start].next.None?
    ensures ComesNext(Rest(t, p, 0), node, indent) && GoesOn(t, Rest(t, p, 0), node, indent, q)
  {
    var n := start;
    indent, q := level, p;
    ghost var rest := Rest(t, p, 0);
    while n != tree
      invariant Reaches(t, q) && Sub(t, q).id == n && indent == |q| - Base(t)
      invariant Rest(t, q, 0) == rest
      invariant n in mem && (if n == tree then q == [] else q != [] && mem[n].next.None?)
      decreases |q|
    {
      ToParent(mem, t, q, n);
      q := Front(q);
      if mem[n].parent.Some? {
        n := mem[n].parent.value;
        indent := indent - 1;
      }
      if n != tree && mem[n].next.Some? {
        ToSibling(mem, t, q, n, indent);
        node := mem[n].next;
        q := Front(q) + [Last(q) + 1];
        GoesOnNext(t, rest, node, indent, q);
        return;
      }
      if mem[n].parent.None? {
        node := None;
        return;
      }
    }
    node := None;
  }

  /** What is left to visit from a place on begins with the node there. */
  lemma RestBegins(t: Tree, p: seq<nat>, n: nat, indent: int, rest: seq<Visit>)
    requires GoesOn(t, rest, Some(n), indent, p)
    ensures rest != [] && rest[0] == Visit(n, indent)
    ensures
      var s := Sub(t, p);
      rest[1..] ==
        if s.kind == EntityReference || s.kids == [] then Rest(t, p, 0)
        else PreOrderFrom(s.kids, 0, Inner(s, indent)) + Rest(t, p, 0)
  {
    var s := Sub(t, p);
    var inside := if s.kind == EntityReference then [] else PreOrderFrom(s.kids, 0, Inner(s, indent));
    assert PreOrder(s, indent) == [Visit(n, indent)] + inside;
    assert rest[1..] == inside + Rest(t, p, 0);
    NothingAdded(Rest(t, p, 0));
  }

  /** One step of the walk: deep first, then siblings, then up. */
  method Next(mem: Store, tree: nat, n: nat, level: int, ghost t: Tree, ghost p: seq<nat>, ghost rest: seq<Visit>)
      returns (node: Option<nat>, indent: int, ghost q: seq<nat>)
    requires Stored(mem, t) && DocumentOnTop(t) && t.id == tree
    requires n in mem && GoesOn(t, rest, Some(n), level, p)
    ensures rest != [] && ComesNext(rest[1..], node, indent) && GoesOn(t, rest[1..], node, indent, q)
  {
    RestBegins(t, p, n, level, rest);
    NodeAt(mem, t, p);
    DepthIs(t, p);
    indent, q := level, p;
    if mem[n].kind == Document {
      node := mem[n].children;
      if node.Some? {
        Down(mem, t, p, rest[1..]);
        q := p + [0];
      }
    } else if mem[n].children.Some? && mem[n].kind != EntityReference {
      Down(mem, t, p, rest[1..]);
      node := mem[n].children;
      indent := indent + 1;
      q := p + [0];
    } else if n != tree && mem[n].next.Some? {
      ToSibling(mem, t, p, n, indent);
      node := mem[n].next;
      q := Front(p) + [Last(p) + 1];
    } else if n != tree {
      node, indent, q := Climb(mem, tree, n, indent, t, p);
    } else {
      node := None;
    }
    GoesOnNext(t, rest[1..], node, indent, q);
  }

  /** The visits so far, and the lines printed for them; what is left makes up the rest of the pre-order. */
  ghost predicate Visited(mem: Store, t: Tree, visits: seq<Visit>, out: seq<Line>, rest: seq<Visit>) {
    visits + rest == PreOrder(t, 0) && out == Lines(mem, visits)
  }

  lemma VisitOne(mem: Store, t: Tree, visits: seq<Visit>, out: seq<Line>, rest: seq<Visit>)
    requires rest != [] && Visited(mem, t, visits, out, rest)
    ensures Visited(mem, t, visits + [rest[0]], out + LineOf(mem, rest[0]), rest[1..])
  {
    assert visits + [rest[0]] + rest[1..] == visits + rest;
    assert (visits + [rest[0]])[..|visits|] == visits;
  }

  lemma AllVisited(mem: Store, t: Tree, visits: seq<Visit>, out: seq<Line>)
    requires Stored(mem, t) && Visited(mem, t, visits, out, [])
    ensures visits == PreOrder(t, 0) && out == Listing(t, 0)
  {
    var next, parent :| Stores(mem, t, next, parent);
    ListingIsLines(mem, t, next, parent, 0);
    NothingAdded(visits);
  }

  /** xmlShellDu on the subtree at `tree`: visits in recursive pre-order, no node twice, and prints the
      recursive listing. */
  method ShellDu(mem: Store, tree: nat, ghost t: Tree) returns (out: seq<Line>, ghost visits: seq<Visit>)
    requires Stored(mem, t) && DocumentOnTop(t) && t.id == tree
    ensures visits == PreOrder(t, 0) && NoneTwice(visits)
    ensures out == Listing(t, 0)
  {
    var node, indent := Some(tree), 0;
    ghost var p: seq<nat>, rest := [], PreOrder(t, 0);
    out, visits := [], [];
    NothingAdded(rest);
    while node.Some?
      invariant GoesOn(t, rest, node, indent, p) && Visited(mem, t, visits, out, rest)
      decreases |rest|
    {
      var n := node.value;
      NodeAt(mem, t, p);
      RestBegins(t, p, n, indent, rest);
      VisitOne(mem, t, visits, out, rest);
      out := out + LineOf(mem, Visit(n, indent));
      visits := visits + [rest[0]];
      node, indent, p := Next(mem, tree, n, indent, t, p, rest);
      rest := rest[1..];
    }
    AllVisited(mem, t, visits, out);
    VisitedOnce(mem, t, 0);
  }
}

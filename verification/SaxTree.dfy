/** The tree that the callbacks of a SAX run stand for, by plain concatenation of character data. */
module SaxTree {

  /** A finished child of an element; Other stands for comments, processing instructions and the like. */
  datatype Child = Text(content: string) | Element(children: seq<Child>) | Other

  /** The finished top-level nodes, and the children of each open element, outermost first. */
  datatype Tree = Tree(roots: seq<Child>, open: seq<seq<Child>>)

  // ---------------------------------------------------------------- what the callbacks mean

  /** Character data joins a text node at the end of the children. */
  function Joined(children: seq<Child>, ch: string): seq<Child> {
    if EndsInText(children)
    then children[|children| - 1 := Text(children[|children| - 1].content + ch)]
    else children + [Text(ch)]
  }

  predicate EndsInText(children: seq<Child>) {
    children != [] && children[|children| - 1].Text?
  }

  /** The tree with other children in the innermost open element. */
  function WithTop(t: Tree, children: seq<Child>): Tree
    requires t.open != []
  {
    t.(open := t.open[|t.open| - 1 := children])
  }

  function TopOf(t: Tree): seq<Child>
    requires t.open != []
  {
    t.open[|t.open| - 1]
  }

  datatype Callback =
    | Characters(ch: string)
    | StartElement
    | EndElement
    | OtherNode
    | EntityText(text: string)  // the text of an entity is copied into the tree by the parser

  function After(t: Tree, cb: Callback): Tree {
    match cb
    case StartElement => t.(open := t.open + [[]])
    case EndElement =>
      if t.open == [] then t
      else
        var e := Element(TopOf(t));
        var outer := t.open[..|t.open| - 1];
        if outer == [] then Tree(t.roots + [e], outer)
        else Tree(t.roots, outer[|outer| - 1 := outer[|outer| - 1] + [e]])
    case OtherNode =>
      if t.open == [] then t.(roots := t.roots + [Other]) else WithTop(t, TopOf(t) + [Other])
    case Characters(ch) =>
      if t.open == [] then t else WithTop(t, Joined(TopOf(t), ch))
    case EntityText(text) =>
      if t.open == [] then t else WithTop(t, Joined(TopOf(t), text))
  }

  function Build(t: Tree, cbs: seq<Callback>): Tree {
    if cbs == [] then t else After(Build(t, cbs[..|cbs| - 1]), cbs[|cbs| - 1])
  }

  function Flattened(chunks: seq<string>): string {
    if chunks == [] then [] else Flattened(chunks[..|chunks| - 1]) + chunks[|chunks| - 1]
  }

  function CharacterCalls(chunks: seq<string>): seq<Callback> {
    seq(|chunks|, i requires 0 <= i < |chunks| => Characters(chunks[i]))
  }

  lemma {:induction false} BuildAppend(t: Tree, a: seq<Callback>, b: seq<Callback>)
    ensures Build(t, a + b) == Build(Build(t, a), b)
    decreases |b|
  {
    if b == [] {
      assert a + b == a;
    } else {
      assert (a + b)[..|a + b| - 1] == a + b[..|b| - 1];
      BuildAppend(t, a, b[..|b| - 1]);
    }
  }

  /** Character data in pieces builds what it builds in one piece. */
  lemma {:induction false} ChunksJoin(t: Tree, chunks: seq<string>)
    requires chunks != []
    ensures Build(t, CharacterCalls(chunks)) == After(t, Characters(Flattened(chunks)))
    decreases |chunks|
  {
    var n := |chunks| - 1;
    var cbs := CharacterCalls(chunks);
    assert cbs[..n] == CharacterCalls(chunks[..n]);
    if n == 0 {
      assert chunks[..0] == [];
      assert Flattened(chunks) == [] + chunks[0] == chunks[0];
      assert cbs[..0] == [];
    } else {
      ChunksJoin(t, chunks[..n]);
      JoinedTwice(t, Flattened(chunks[..n]), chunks[n]);
    }
  }

  lemma JoinedTwice(t: Tree, a: string, b: string)
    ensures After(After(t, Characters(a)), Characters(b)) == After(t, Characters(a + b))
  {
    if t.open != [] {
      var children, n := TopOf(t), |t.open| - 1;
      JoinedOnce(children, a, b);
      assert t.open[n := Joined(children, a)][n := Joined(children, a + b)] == t.open[n := Joined(children, a + b)];
    }
  }

  lemma JoinedOnce(children: seq<Child>, a: string, b: string)
    ensures Joined(Joined(children, a), b) == Joined(children, a + b)
  {
    var n := |children|;
    if EndsInText(children) {
      var first := children[n - 1].content;
      assert first + a + b == first + (a + b);
      assert children[n - 1 := Text(first + a)][n - 1 := Text(first + a + b)] == children[n - 1 := Text(first + a + b)];
    } else {
      assert (children + [Text(a)])[n := Text(a + b)] == children + [Text(a + b)];
    }
  }

  /** Chunking is irrelevant anywhere in a run: what matters is the character data between other callbacks. */
  lemma ChunkingIrrelevant(
      t: Tree, before: seq<Callback>, one: seq<string>, other: seq<string>, behind: seq<Callback>)
    requires one != [] && other != [] && Flattened(one) == Flattened(other)
    ensures Build(t, before + CharacterCalls(one) + behind) == Build(t, before + CharacterCalls(other) + behind)
  {
    BuildAppend(t, before + CharacterCalls(one), behind);
    BuildAppend(t, before + CharacterCalls(other), behind);
    BuildAppend(t, before, CharacterCalls(one));
    BuildAppend(t, before, CharacterCalls(other));
    ChunksJoin(Build(t, before), one);
    ChunksJoin(Build(t, before), other);
  }

  // ---------------------------------------------------------------- the callbacks of a tree

  /** The callbacks that report a child. */
  function CallsOf(kid: Child): seq<Callback>
    decreases kid, 0
  {
    match kid
    case Text(content) => [Characters(content)]
    case Other => [OtherNode]
    case Element(children) => [StartElement] + CallsOfAll(children) + [EndElement]
  }

  function CallsOfAll(kids: seq<Child>): seq<Callback>
    decreases kids, 0
  {
    if kids == [] then [] else CallsOf(kids[0]) + CallsOfAll(kids[1..])
  }

  /** No text node directly behind another, at any depth. */
  ghost predicate Apart(kids: seq<Child>)
    decreases kids
  {
    kids != [] ==>
      && Apart(kids[1..]) && (kids[0].Element? ==> Apart(kids[0].children))
      && !(|kids| > 1 && kids[0].Text? && kids[1].Text?)
  }

  /** Text does not stand outside the document element. */
  function NoTexts(kids: seq<Child>): seq<Child> {
    if kids == [] then [] else (if kids[0].Text? then [] else [kids[0]]) + NoTexts(kids[1..])
  }

  /** The tree with more children in the innermost open element, or with more top-level nodes if none is open. */
  function Grown(t: Tree, kids: seq<Child>): Tree {
    if t.open == [] then Tree(t.roots + NoTexts(kids), [])
    else Tree(t.roots, t.open[|t.open| - 1 := t.open[|t.open| - 1] + kids])
  }

  /** The children can follow: no text behind a text. */
  ghost predicate CanFollow(t: Tree, kids: seq<Child>) {
    Apart(kids) && !(kids != [] && kids[0].Text? && t.open != [] && EndsInText(t.open[|t.open| - 1]))
  }

  lemma BuildOne(t: Tree, cb: Callback)
    ensures Build(t, [cb]) == After(t, cb)
  {
    assert [cb][..0] == [];
  }

  lemma GrownTwice(t: Tree, kid: Child, kids: seq<Child>)
    ensures Grown(Grown(t, [kid]), kids) == Grown(t, [kid] + kids)
  {
    var all := [kid] + kids;
    assert all[1..] == kids && [kid][1..] == [];
    if t.open == [] {
      assert NoTexts([kid]) == if kid.Text? then [] else [kid];
      assert t.roots + NoTexts([kid]) + NoTexts(kids) == t.roots + NoTexts(all);
    } else {
      var n := |t.open| - 1;
      assert t.open[n] + [kid] + kids == t.open[n] + all;
      assert t.open[n := t.open[n] + [kid]][n := t.open[n] + all] == t.open[n := t.open[n] + all];
    }
  }

  lemma GrownNothing(t: Tree)
    ensures Grown(t, []) == t
  {
    if t.open == [] {
      assert t.roots + [] == t.roots;
    } else {
      var n := |t.open| - 1;
      assert t.open[n] + [] == t.open[n];
    }
  }

  /** A child without children of its own. */
  lemma LeafGrows(t: Tree, kid: Child)
    requires !kid.Element? && CanFollow(t, [kid])
    ensures Build(t, CallsOf(kid)) == Grown(t, [kid])
  {
    assert [kid][1..] == [] && t.roots + [] == t.roots;
    assert NoTexts([kid]) == if kid.Text? then [] else [kid];
    match kid {
      case Text(content) => BuildOne(t, Characters(content));
      case Other => BuildOne(t, OtherNode);
    }
  }

  lemma BuildBetween(t: Tree, first: Callback, cbs: seq<Callback>, last: Callback)
    ensures Build(t, [first] + cbs + [last]) == After(Build(After(t, first), cbs), last)
  {
    BuildOne(t, first);
    BuildAppend(t, [first], cbs);
    BuildAppend(t, [first] + cbs, [last]);
    BuildOne(Build(After(t, first), cbs), last);
  }

  lemma Filled(t: Tree, kids: seq<Child>)
    ensures Grown(After(t, StartElement), kids) == Tree(t.roots, t.open + [kids])
  {
    var open, n := After(t, StartElement).open, |t.open|;
    assert open == t.open + [[]] && open[n] + kids == kids;
    assert open[n := kids] == t.open + [kids];
  }

  lemma Finished(t: Tree, kids: seq<Child>)
    ensures After(Tree(t.roots, t.open + [kids]), EndElement) == Grown(t, [Element(kids)])
  {
    var open := t.open + [kids];
    assert open[..|open| - 1] == t.open && open[|open| - 1] == kids;
    assert [Element(kids)][1..] == [] && NoTexts([Element(kids)]) == [Element(kids)] + [] == [Element(kids)];
  }

  /** An element, given that its content grows inside it. */
  lemma ElementGrows(t: Tree, kids: seq<Child>)
    requires
      var inner := After(t, StartElement);
      Build(inner, CallsOfAll(kids)) == Grown(inner, kids)
    ensures Build(t, CallsOf(Element(kids))) == Grown(t, [Element(kids)])
  {
    BuildBetween(t, StartElement, CallsOfAll(kids), EndElement);
    Filled(t, kids);
    Finished(t, kids);
  }

  /** Receiving the callbacks of some children, with no text behind a text, adds exactly those children in order. */
  lemma {:induction false} CallsGrow(t: Tree, kids: seq<Child>)
    requires CanFollow(t, kids)
    ensures Build(t, CallsOfAll(kids)) == Grown(t, kids)
    decreases kids
  {
    if kids == [] {
      GrownNothing(t);
    } else {
      var kid, rest := kids[0], kids[1..];
      assert kids == [kid] + rest && [kid][1..] == [];
      BuildAppend(t, CallsOf(kid), CallsOfAll(rest));
      if kid.Element? {
        CallsGrow(After(t, StartElement), kid.children);
        ElementGrows(t, kid.children);
      } else {
        LeafGrows(t, kid);
      }
      CanFollowOn(t, kid, rest);
      CallsGrow(Grown(t, [kid]), rest);
      GrownTwice(t, kid, rest);
    }
  }

  lemma CanFollowOn(t: Tree, kid: Child, rest: seq<Child>)
    requires Apart([kid] + rest)
    ensures CanFollow(Grown(t, [kid]), rest)
  {
    assert ([kid] + rest)[1..] == rest;
  }

  // ---------------------------------------------------------------- text of entities

  /** The same callbacks, with the text of entities as character data. */
  function AsCharacters(cbs: seq<Callback>): (r: seq<Callback>)
    ensures |r| == |cbs|
    ensures forall i :: 0 <= i < |r| ==> r[i] == if cbs[i].EntityText? then Characters(cbs[i].text) else cbs[i]
  {
    seq(|cbs|, i requires 0 <= i < |cbs| => if cbs[i].EntityText? then Characters(cbs[i].text) else cbs[i])
  }

  lemma {:induction false} EntityTextIsCharacters(t: Tree, cbs: seq<Callback>)
    ensures Build(t, AsCharacters(cbs)) == Build(t, cbs)
    decreases |cbs|
  {
    if cbs != [] {
      var n := |cbs| - 1;
      assert AsCharacters(cbs)[..n] == AsCharacters(cbs[..n]);
      EntityTextIsCharacters(t, cbs[..n]);
    }
  }

  /** If the callbacks report some children that can follow, the tree has grown by exactly these. */
  ghost predicate GrowsAsReported(t: Tree, cbs: seq<Callback>, now: Tree) {
    forall kids :: AsCharacters(cbs) == CallsOfAll(kids) && CanFollow(t, kids) ==> now == Grown(t, kids)
  }

  lemma RunGrows(t: Tree, cbs: seq<Callback>)
    ensures GrowsAsReported(t, cbs, Build(t, cbs))
  {
    EntityTextIsCharacters(t, cbs);
    forall kids | AsCharacters(cbs) == CallsOfAll(kids) && CanFollow(t, kids)
      ensures Build(t, cbs) == Grown(t, kids)
    {
      CallsGrow(t, kids);
    }
  }

  /** A document: its top-level nodes. */
  lemma DocumentGrows(kids: seq<Child>)
    requires Apart(kids) && forall kid :: kid in kids ==> !kid.Text?
    ensures Build(Tree([], []), CallsOfAll(kids)) == Tree(kids, [])
  {
    CallsGrow(Tree([], []), kids);
    NoneDropped(kids);
  }

  lemma {:induction false} NoneDropped(kids: seq<Child>)
    requires forall kid :: kid in kids ==> !kid.Text?
    ensures NoTexts(kids) == kids
  {
    if kids != [] {
      assert kids[0] in kids && kids == [kids[0]] + kids[1..];
      NoneDropped(kids[1..]);
    }
  }
}

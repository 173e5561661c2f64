/** What the selected part of a document is: the visible text and the visible elements, in document order, whatever is
    around them. */
module C14nSelected {
  import opened XmlString
  import opened XmlTree
  import opened C14nSpec
  import opened C14nMeaning

  /** The visible text nodes, one after the other. */
  function VisibleText(nodes: seq<Node>): string
    decreases nodes
  {
    if nodes == [] then ""
    else
      match nodes[0]
      case Text(content, visible) => (if visible then content else "") + VisibleText(nodes[1..])
      case Element(_, _, _, _, children, _, _) => VisibleText(children) + VisibleText(nodes[1..])
  }

  /** The beginnings and ends of visible elements, with the names at the beginnings. */
  function VisibleTags(nodes: seq<Node>): seq<Option<string>>
    decreases nodes
  {
    if nodes == [] then []
    else
      match nodes[0]
      case Text(_, _) => VisibleTags(nodes[1..])
      case Element(name, _, _, _, children, visible, _) =>
        (if visible then [Some(name)] + VisibleTags(children) + [None] else VisibleTags(children))
        + VisibleTags(nodes[1..])
  }

  function ItemData(item: Item): string {
    if item.Data? then item.text else ""
  }

  function ItemTags(item: Item): seq<Option<string>> {
    match item
    case Start(_, name, _, _) => [Some(name)]
    case Stop => [None]
    case Data(_) => []
  }

  function ReadData(items: seq<Item>): string {
    if items == [] then "" else ItemData(items[0]) + ReadData(items[1..])
  }

  function ReadTags(items: seq<Item>): seq<Option<string>> {
    if items == [] then [] else ItemTags(items[0]) + ReadTags(items[1..])
  }

  lemma {:induction false} DataAppend(a: seq<Item>, b: seq<Item>)
    ensures ReadData(a + b) == ReadData(a) + ReadData(b)
  {
    if a == [] {
      assert a + b == b;
    } else {
      assert (a + b)[1..] == a[1..] + b;
      DataAppend(a[1..], b);
    }
  }

  lemma {:induction false} TagsAppend(a: seq<Item>, b: seq<Item>)
    ensures ReadTags(a + b) == ReadTags(a) + ReadTags(b)
  {
    if a == [] {
      assert a + b == b;
    } else {
      assert (a + b)[1..] == a[1..] + b;
      TagsAppend(a[1..], b);
    }
  }

  lemma ReadAppend(a: seq<Item>, b: seq<Item>)
    ensures ReadData(a + b) == ReadData(a) + ReadData(b)
    ensures ReadTags(a + b) == ReadTags(a) + ReadTags(b)
  {
    DataAppend(a, b);
    TagsAppend(a, b);
  }

  lemma ReadOne(item: Item)
    ensures ReadData([item]) == ItemData(item) && ReadTags([item]) == ItemTags(item)
  {
    assert [item][1..] == [];
    assert ItemData(item) + "" == ItemData(item) && ItemTags(item) + [] == ItemTags(item);
  }

  /** The selected part has the visible text, and the tags of the visible elements in their nesting. */
  lemma {:induction false} InfosetSelects(mode: Mode, above: Path, nodes: seq<Node>)
    ensures ReadData(InfosetList(mode, above, nodes)) == VisibleText(nodes)
    ensures ReadTags(InfosetList(mode, above, nodes)) == VisibleTags(nodes)
    decreases nodes
  {
    if nodes != [] {
      var node := nodes[0];
      InfosetSelects(mode, above, nodes[1..]);
      ReadAppend(Infoset(mode, above, node), InfosetList(mode, above, nodes[1..]));
      if node.Text? {
        ReadOne(Data(node.content));
      } else {
        var path := [node] + above;
        InfosetSelects(mode, path, node.children);
        if node.visible {
          ElementSelected(mode, path);
        }
      }
    }
  }

  lemma ElementSelected(mode: Mode, path: Path)
    requires path != [] && path[0].Element? && path[0].visible
    ensures
      var items, content := Infoset(mode, path[1..], path[0]), InfosetList(mode, path, path[0].children);
      && ReadData(items) == ReadData(content)
      && ReadTags(items) == [Some(path[0].name)] + ReadTags(content) + [None]
  {
    var content := InfosetList(mode, path, path[0].children);
    InfosetSplits(mode, path);
    ReadAppend([TagItem(mode, path)] + content, [Stop]);
    ReadAppend([TagItem(mode, path)], content);
    ReadOne(TagItem(mode, path));
    ReadOne(Stop);
    assert "" + ReadData(content) + "" == ReadData(content);
  }
}

/** Text nodes of the tree builder: consecutive character callbacks grow one buffer, which must agree with plain
    concatenation. */
module SaxText {
  import opened XmlString
  import opened Memory
  import opened SaxTree

  // ---------------------------------------------------------------- strings in memory

  /** The array holds the string and the zero that ends it. */
  ghost predicate Holds(a: array<char>, s: string)
    reads a
  {
    |s| < a.Length && a[..|s|] == s && a[|s|] == '\0'
  }

  ghost predicate NulFree(s: string) {
    '\0' !in s
  }

  /** xmlStrlen. */
  method StrLen(a: array<char>, ghost s: string) returns (n: nat)
    requires Holds(a, s) && NulFree(s)
    ensures n == |s|
  {
    assert forall i :: 0 <= i < |s| ==> a[i] == a[..|s|][i] == s[i] && s[i] in s;
    n := 0;
    while a[n] != '\0'
      invariant n <= |s|
      decreases |s| - n
    {
      n := n + 1;
    }
  }

  /** xmlStrndup. */
  method StrNDup(s: string) returns (a: array<char>)
    ensures fresh(a) && a.Length == |s| + 1 && Holds(a, s)
  {
    a := new char[|s| + 1];
    Memcpy(a, 0, s);
    ghost var before := a[..|s|];
    a[|s|] := '\0';
    assert a[..|s|] == before;
  }

  /** The dictionary that short strings are interned in. */
  class Dict {
    var strings: map<string, array<char>>
    var arrays: set<array<char>>

    ghost predicate Valid()
      reads this, arrays
    {
      forall s :: s in strings ==> strings[s] in arrays && strings[s].Length == |s| + 1 && Holds(strings[s], s)
    }

    constructor ()
      ensures Valid() && arrays == {}
    {
      strings := map[];
      arrays := {};
    }

    method Lookup(s: string) returns (a: array<char>)
      requires Valid()
      modifies this
      ensures Valid() && a in arrays && Holds(a, s)
      ensures old(arrays) <= arrays && fresh(arrays - old(arrays))
      ensures a.Length == |s| + 1
    {
      if s in strings {
        return strings[s];
      }
      a := StrNDup(s);
      strings := strings[s := a];
      arrays := arrays + {a};
    }
  }

  // ---------------------------------------------------------------- the builder

  predicate Blank(c: char) {
    c == ' ' || c == '\t' || c == '\n' || c == '\r'
  }

  predicate AllBlank(s: string) {
    forall i :: 0 <= i < |s| ==> Blank(s[i])
  }

  /** A character of what follows the data in the parser's buffer. */
  function Ahead(after: string, i: nat): char {
    if i < |after| then after[i] else '\0'
  }

  /** Room for a string inside the node, in the place of two pointers. */
  const NODE_ROOM := 16

  /** Short strings go into the node itself, if the parser was asked for compact nodes. */
  predicate FitsNode(ch: string, compact: bool) {
    |ch| < NODE_ROOM && compact
  }

  /** Very short strings before a quote or a tag, and blanks before a tag, are interned; a comment or declaration
      does not count as a tag. */
  predicate WorthInterning(ch: string, after: string) {
    var tagAhead := Ahead(after, 0) == '<' && Ahead(after, 1) != '!';
    || (|ch| <= 3 && (Ahead(after, 0) == '"' || Ahead(after, 0) == '\'' || tagAhead))
    || (ch != [] && |ch| < 60 && tagAhead && AllBlank(ch))
  }

  ghost predicate AllNulFree(cbs: seq<Callback>) {
    forall i :: 0 <= i < |cbs| ==>
      (cbs[i].Characters? ==> NulFree(cbs[i].ch)) && (cbs[i].EntityText? ==> NulFree(cbs[i].text))
  }

  /** The tree builder. The last child of the innermost open element, if it is a text node, is held in the fields
      `inNode`, `content` and, as an abstraction, `text`; the rest of the tree is in `tree`. */
  class Builder {
    const dictNames: bool
    const compact: bool
    const dict: Dict
    var tree: Tree
    var hasText: bool
    var inNode: array<char>
    var content: array<char>
    var nodelen: int
    var nodemem: int
    ghost var text: string

    /** The content is in memory that is the node's own and may be changed in place. */
    ghost predicate Private()
      reads this, dict
    {
      hasText && content != inNode && content !in dict.arrays
    }

    ghost function Owned(): set<array<char>>
      reads this, dict
    {
      if Private() then {content} else {}
    }

    /** How the two counters describe the text node, unless they were reset. */
    ghost predicate Counted()
      reads this, dict
    {
      && nodelen == |text|
      && nodelen < nodemem
      && (if Private() then nodemem == content.Length else nodemem == nodelen + 1)
    }

    ghost predicate Valid()
      reads this, dict, dict.arrays, content
    {
      && dict.Valid()
      && (tree.open != [] ==> !EndsInText(TopOf(tree)))
      && (hasText ==>
            && tree.open != [] && NulFree(text) && Holds(content, text)
            && inNode !in dict.arrays && (nodemem == 0 || Counted()))
    }

    ghost function Now(): Tree
      requires hasText ==> tree.open != []
      reads this
    {
      if hasText then WithTop(tree, TopOf(tree) + [Text(text)]) else tree
    }

    constructor (dictNames: bool, compact: bool)
      ensures Valid() && fresh(dict) && dict.arrays == {} && Owned() == {}
      ensures Now() == Tree([], [])
    {
      this.dictNames := dictNames;
      this.compact := compact;
      dict := new Dict();
      tree := Tree([], []);
      hasText := false;
      inNode := new char[NODE_ROOM];
      content := new char[NODE_ROOM];
      nodelen := 0;
      nodemem := 0;
      text := "";
    }

    /** xmlSAX2TextNode: the string goes into the node, into the dictionary, or into memory of its own. */
    method TextNode(ch: string, after: string) returns (room: array<char>, str: array<char>)
      requires dict.Valid()
      modifies dict
      ensures dict.Valid() && old(dict.arrays) <= dict.arrays && fresh(dict.arrays - old(dict.arrays))
      ensures fresh(room) && room.Length == NODE_ROOM && room !in dict.arrays
      ensures Holds(str, ch)
      ensures str == room <==> dictNames && FitsNode(ch, compact)
      ensures str in dict.arrays <==> dictNames && !FitsNode(ch, compact) && WorthInterning(ch, after)
      ensures str != room && str !in dict.arrays ==> fresh(str) && str.Length == |ch| + 1
    {
      room := new char[NODE_ROOM];
      if dictNames {
        var cur := Ahead(after, 0);
        if |ch| < NODE_ROOM && compact {
          Memcpy(room, 0, ch);
          ghost var before := room[..|ch|];
          room[|ch|] := '\0';
          assert room[..|ch|] == before;
          return room, room;
        }
        if |ch| <= 3 && (cur == '"' || cur == '\'' || (cur == '<' && Ahead(after, 1) != '!')) {
          str := dict.Lookup(ch);
          return;
        }
        if ch != [] && Blank(ch[0]) && |ch| < 60 && cur == '<' && Ahead(after, 1) != '!' && AllBlank(ch) {
          str := dict.Lookup(ch);
          return;
        }
      }
      str := StrNDup(ch);
    }

    /** Copies content that must not be changed in place. */
    method TakeOver()
      requires Valid() && hasText && nodemem != 0
      modifies this`content
      ensures Valid() && Private() && (content == old(content) || fresh(content))
      ensures old(Private()) ==> content == old(content)
    {
      if content == inNode {
        var n := StrLen(content, text);
        content := StrNDup(content[..n]);
      } else if nodemem == nodelen + 1 && content in dict.arrays {
        var n := StrLen(content, text);
        content := StrNDup(content[..n]);
      }
    }

    /** Makes room for so many more characters and the zero. */
    method Reserve(len: nat)
      requires Valid() && Private() && nodemem != 0
      modifies this`content, this`nodemem
      ensures Valid() && Private() && nodemem != 0 && nodelen + len < nodemem == content.Length
      ensures content == old(content) || fresh(content)
    {
      if nodelen + len >= nodemem {
        var size := (nodemem + len) * 2;
        ghost var before := content[..nodelen];
        var grown := Realloc(content, size);
        assert grown[..nodelen] == grown[..content.Length][..nodelen] == before;
        assert grown[nodelen] == grown[..content.Length][nodelen];
        content := grown;
        nodemem := size;
      }
    }

    /** Writes more characters behind the ones that are there. */
    method Append(ch: string)
      requires Valid() && Private() && nodemem != 0 && NulFree(ch) && nodelen + |ch| < nodemem
      modifies this`nodelen, this`text, content
      ensures Valid() && Private() && text == old(text) + ch
    {
      Memcpy(content, nodelen, ch);
      nodelen := nodelen + |ch|;
      ghost var before := content[..nodelen];
      content[nodelen] := '\0';
      text := text + ch;
      assert content[..nodelen] == before;
    }

    /** xmlTextConcat: concatenation without the counters. */
    method TextConcat(ch: string)
      requires Valid() && hasText && NulFree(ch)
      modifies this`content, this`text
      ensures hasText && NulFree(text) && Holds(content, text) && text == old(text) + ch
      ensures fresh(content) && content.Length == |text| + 1
    {
      var n := StrLen(content, text);
      content := StrNDup(content[..n] + ch);
      text := text + ch;
    }

    /** The first characters behind another kind of node, or behind nothing. */
    method StartText(ch: string, after: string)
      requires Valid() && NulFree(ch) && tree.open != [] && !hasText
      modifies this, dict
      ensures Valid() && hasText && tree == old(tree) && text == ch && fresh(Owned())
      ensures old(dict.arrays) <= dict.arrays && fresh(dict.arrays - old(dict.arrays))
    {
      inNode, content := TextNode(ch, after);
      hasText, text := true, ch;
      nodelen := |ch|;
      nodemem := |ch| + 1;
    }

    /** Further characters join the text. */
    method GrowText(ch: string)
      requires Valid() && NulFree(ch) && hasText
      modifies this, Owned()
      ensures Valid() && hasText && tree == old(tree) && text == old(text) + ch
      ensures content == old(content) || fresh(content)
      ensures Private() && (old(Private()) || fresh(content))
    {
      if nodemem != 0 {
        TakeOver();
        Reserve(|ch|);
        Append(ch);
      } else {
        TextConcat(ch);
        nodelen := StrLen(content, text);
        nodemem := nodelen + 1;
      }
    }

    /** xmlSAX2Characters; `after` is what follows the data in the parser's buffer. */
    method ReceiveCharacters(ch: string, after: string)
      requires Valid() && NulFree(ch)
      modifies this, dict, Owned()
      ensures Valid() && fresh(Owned() - old(Owned()))
      ensures old(dict.arrays) <= dict.arrays && fresh(dict.arrays - old(dict.arrays))
      ensures Now() == After(old(Now()), Characters(ch))
    {
      if tree.open == [] {
        return;
      }
      if !hasText {
        StartText(ch, after);
      } else {
        GrownText(tree, text, ch);
        GrowText(ch);
      }
    }

    /** A text node stays behind as it is when something else follows it. */
    method LeaveText()
      requires Valid()
      modifies this`tree, this`hasText
      ensures !hasText && tree == old(Now()) && dict.Valid()
    {
      if hasText {
        var n := StrLen(content, text);
        tree := WithTop(tree, TopOf(tree) + [Text(content[..n])]);
        hasText := false;
      }
    }

    /** xmlSAX2StartElement, as far as the tree's shape and the counters go. */
    method ReceiveStartElement()
      requires Valid()
      modifies this
      ensures Valid() && Owned() == {} && Now() == After(old(Now()), StartElement)
    {
      LeaveText();
      nodemem := -1;
      tree := tree.(open := tree.open + [[]]);
    }

    /** xmlSAX2EndElement. */
    method ReceiveEndElement()
      requires Valid()
      modifies this
      ensures Valid() && Owned() == {} && Now() == After(old(Now()), EndElement)
    {
      LeaveText();
      nodemem := -1;
      if tree.open != [] {
        var e := Element(TopOf(tree));
        var outer := tree.open[..|tree.open| - 1];
        tree := if outer == [] then Tree(tree.roots + [e], outer)
                else Tree(tree.roots, outer[|outer| - 1 := outer[|outer| - 1] + [e]]);
      }
    }

    /** Any other node is added; the counters stay as they are. */
    method ReceiveOther()
      requires Valid()
      modifies this
      ensures Valid() && Owned() == {} && Now() == After(old(Now()), OtherNode)
    {
      LeaveText();
      tree := if tree.open == [] then tree.(roots := tree.roots + [Other]) else WithTop(tree, TopOf(tree) + [Other]);
    }

    /** The parser copies an entity's text into the tree and resets the counters to zero. */
    method CopyEntityText(s: string)
      requires Valid() && NulFree(s)
      modifies this
      ensures Valid() && fresh(Owned() - old(Owned())) && Now() == After(old(Now()), EntityText(s))
    {
      if tree.open != [] {
        if hasText {
          GrownText(tree, text, s);
          TextConcat(s);
        } else {
          inNode := new char[NODE_ROOM];
          content := StrNDup(s);
          hasText, text := true, s;
        }
      }
      nodemem := 0;
      nodelen := 0;
    }

    /** What one callback does to the tree. */
    method Receive(cb: Callback, after: string)
      requires Valid() && (cb.Characters? ==> NulFree(cb.ch)) && (cb.EntityText? ==> NulFree(cb.text))
      modifies this, dict, Owned()
      ensures Valid() && fresh(Owned() - old(Owned()))
      ensures old(dict.arrays) <= dict.arrays && fresh(dict.arrays - old(dict.arrays))
      ensures Now() == After(old(Now()), cb)
    {
      match cb
      case Characters(ch) => ReceiveCharacters(ch, after);
      case StartElement => ReceiveStartElement();
      case EndElement => ReceiveEndElement();
      case OtherNode => ReceiveOther();
      case EntityText(s) => CopyEntityText(s);
    }

    /** The callbacks of a run, each with what follows it in the parser's buffer. If they report some children, with no
        text behind a text, exactly those children are added to the tree. */
    method ReceiveAll(cbs: seq<Callback>, afters: seq<string>)
      requires Valid() && |afters| == |cbs| && AllNulFree(cbs)
      modifies this, dict, Owned()
      ensures Valid() && Now() == Build(old(Now()), cbs)
      ensures GrowsAsReported(old(Now()), cbs, Now())
    {
      ghost var start := Now();
      for i := 0 to |cbs|
        invariant Valid() && fresh(Owned() - old(Owned()))
        invariant old(dict.arrays) <= dict.arrays && fresh(dict.arrays - old(dict.arrays))
        invariant Now() == Build(start, cbs[..i])
      {
        assert cbs[..i + 1][..i] == cbs[..i];
        Receive(cbs[i], afters[i]);
      }
      assert cbs[..|cbs|] == cbs;
      RunGrows(start, cbs);
    }
  }

  /** Adding to the text at the end of the innermost element. */
  lemma GrownText(tree: Tree, text: string, ch: string)
    requires tree.open != []
    ensures After(WithTop(tree, TopOf(tree) + [Text(text)]), Characters(ch))
              == WithTop(tree, TopOf(tree) + [Text(text + ch)])
  {
    var children, n := TopOf(tree), |tree.open| - 1;
    assert Joined(children + [Text(text)], ch) == children + [Text(text + ch)];
    assert tree.open[n := children + [Text(text)]][n := children + [Text(text + ch)]]
      == tree.open[n := children + [Text(text + ch)]];
  }

  /** The ways in which a builder may hold short strings. */
  datatype Setting = Setting(dictNames: bool, compact: bool)

  /** A builder that has received a run. */
  method BuildRun(setting: Setting, cbs: seq<Callback>, afters: seq<string>) returns (b: Builder)
    requires |afters| == |cbs| && AllNulFree(cbs)
    ensures fresh(b) && b.Valid() && b.Now() == Build(Tree([], []), cbs)
  {
    b := new Builder(setting.dictNames, setting.compact);
    b.ReceiveAll(cbs, afters);
  }

  /** Two builders that receive the same run, but its character data cut differently at one place, with other lookahead
      and with other settings, end up with the same tree. */
  method BuildBoth(settingA: Setting, settingB: Setting, before: seq<Callback>, one: seq<string>, other: seq<string>,
                   behind: seq<Callback>, aftersA: seq<string>, aftersB: seq<string>)
      returns (a: Builder, b: Builder)
    requires one != [] && other != [] && Flattened(one) == Flattened(other)
    requires AllNulFree(before) && AllNulFree(CharacterCalls(one)) && AllNulFree(CharacterCalls(other))
    requires AllNulFree(behind)
    requires |aftersA| == |before| + |one| + |behind| && |aftersB| == |before| + |other| + |behind|
    ensures a.Valid() && b.Valid()
    ensures a.Now() == b.Now() == Build(Tree([], []), before + CharacterCalls(one) + behind)
  {
    a := BuildRun(settingA, before + CharacterCalls(one) + behind, aftersA);
    b := BuildRun(settingB, before + CharacterCalls(other) + behind, aftersB);
    ChunkingIrrelevant(Tree([], []), before, one, other, behind);
  }
}

/** The output as characters: how the pieces of the buffer are spelled, and a reader that takes the characters apart
    again. */
module C14nText {
  import opened XmlString
  import opened C14nEscape
  import opened C14nSpec
  import opened C14nMeaning

  // ---------------------------------------------------------------- how pieces are written

  function QName(prefix: string, name: string): string {
    if prefix == "" then name else prefix + ":" + name
  }

  /** An attribute, or a declaration, with its value between double quotes. */
  function Quoted(qname: string, value: string): string {
    " " + qname + "=\"" + value + "\""
  }

  function Piece(e: Event): string {
    match e
    case Open(prefix, name) => "<" + QName(prefix, name)
    case Xmlns(d) => Quoted(if d.prefix == "" then "xmlns" else "xmlns:" + d.prefix, d.href)
    case Attribute(prefix, name, value) => Quoted(QName(prefix, name), value)
    case Close => ">"
    case Chars(text) => text
    case End(prefix, name) => "</" + QName(prefix, name) + ">"
  }

  function Spell(evs: seq<Event>): string {
    if evs == [] then "" else Piece(evs[0]) + Spell(evs[1..])
  }

  lemma {:induction false} SpellAppend(a: seq<Event>, b: seq<Event>)
    ensures Spell(a + b) == Spell(a) + Spell(b)
  {
    if a == [] {
      assert a + b == b;
    } else {
      assert (a + b)[1..] == a[1..] + b;
      SpellAppend(a[1..], b);
    }
  }

  // ---------------------------------------------------------------- reading characters

  /** The first of the characters from a position on, or the end. */
  function Find(s: string, i: nat, ends: set<char>): (j: nat)
    requires i <= |s|
    ensures i <= j <= |s| && (j < |s| ==> s[j] in ends)
    decreases |s| - i
  {
    if i == |s| || s[i] in ends then i else Find(s, i + 1, ends)
  }

  /** Prefix and local part of a qualified name. */
  function Named(q: string): Option<(string, string)> {
    var c := Find(q, 0, {':'});
    if c == |q| then (if q == "" then None else Some(("", q)))
    else if c == 0 || c + 1 == |q| || Find(q, c + 1, {':'}) != |q| then None
    else Some((q[..c], q[c + 1..]))
  }

  function Then(e: Event, r: Option<seq<Event>>): Option<seq<Event>> {
    if r.None? then None else Some([e] + r.value)
  }

  /** What stands in a start tag is a declaration or an attribute. */
  function InTag(qname: string, value: string): Option<Event> {
    if qname == "xmlns" then Some(Xmlns(Decl("", value)))
    else
      var n := Named(qname);
      if n.None? then None
      else if n.value.0 == "xmlns" then Some(Xmlns(Decl(n.value.1, value)))
      else Some(Attribute(n.value.0, n.value.1, value))
  }

  /** How many characters make up the next character of the content; a reference is taken whole, and so is a line end
      of two characters. */
  function UnitLength(s: string): Option<nat>
    requires s != ""
  {
    if s[0] == '&' then (if Reference(s).None? then None else Some(Reference(s).value.1))
    else Some(if "\r\n" <= s then 2 else 1)
  }

  /** The pieces that the characters make up, inside a start tag or in content; None where they are not canonical XML.
      Content is taken one character at a time. */
  function Lex(s: string, inTag: bool): Option<seq<Event>>
    decreases |s|
  {
    if s == "" then (if inTag then None else Some([]))
    else if inTag then
      if s[0] == '>' then Then(Close, Lex(s[1..], false))
      else if s[0] != ' ' then None
      else
        var eq := Find(s, 1, {'='});
        if eq + 1 >= |s| || s[eq + 1] != '\"' then None
        else
          var q := Find(s, eq + 2, {'\"'});
          var e := InTag(s[1..eq], s[eq + 2..q]);
          if q == |s| || e.None? then None else Then(e.value, Lex(s[q + 1..], true))
    else if s[0] != '<' then
      var n := UnitLength(s);
      if n.None? then None else Then(Chars(s[..n.value]), Lex(s[n.value..], false))
    else if 1 < |s| && s[1] == '/' then
      var gt := Find(s, 2, {'>'});
      var n := Named(s[2..gt]);
      if gt == |s| || n.None? then None else Then(End(n.value.0, n.value.1), Lex(s[gt + 1..], false))
    else
      var end := Find(s, 1, {' ', '>'});
      var n := Named(s[1..end]);
      if end == |s| || n.None? then None else Then(Open(n.value.0, n.value.1), Lex(s[end..], true))
  }

  /** A namespace-aware reader of the characters. */
  ghost function ReadText(mode: Mode, s: string): Option<seq<Item>> {
    var evs := Lex(s, false);
    if evs.None? then None else Read(mode, evs.value, map[], [])
  }

  // ---------------------------------------------------------------- names

  predicate Delimiter(c: char) {
    c in {' ', '\t', '\n', '\r', '<', '>', '=', '\"', '\'', '/', ':', '&'}
  }

  /** As far as the reader is concerned: no delimiter in it (NCName in Namespaces in XML). */
  ghost predicate NcName(s: string) {
    s != "" && forall i :: 0 <= i < |s| ==> !Delimiter(s[i])
  }

  ghost predicate PrefixOk(p: string) {
    p == "" || NcName(p)
  }

  lemma {:induction false} FindFirst(s: string, i: nat, j: nat, ends: set<char>)
    requires i <= j < |s| && s[j] in ends && forall k :: i <= k < j ==> s[k] !in ends
    ensures Find(s, i, ends) == j
    decreases j - i
  {
    if i < j { FindFirst(s, i + 1, j, ends); }
  }

  lemma {:induction false} FindNone(s: string, i: nat, ends: set<char>)
    requires i <= |s| && forall k :: i <= k < |s| ==> s[k] !in ends
    ensures Find(s, i, ends) == |s|
    decreases |s| - i
  {
    if i < |s| { FindNone(s, i + 1, ends); }
  }

  /** A qualified name is taken apart again. */
  lemma NamedQName(prefix: string, name: string)
    requires PrefixOk(prefix) && NcName(name)
    ensures Named(QName(prefix, name)) == Some((prefix, name))
  {
    var q := QName(prefix, name);
    if prefix == "" {
      FindNone(q, 0, {':'});
    } else {
      var c := |prefix|;
      assert forall k :: 0 <= k < c ==> q[k] == prefix[k];
      assert q[c] == ':';
      assert forall k :: c < k < |q| ==> q[k] == name[k - c - 1];
      FindFirst(q, 0, c, {':'});
      FindNone(q, c + 1, {':'});
      assert q[..c] == prefix && q[c + 1..] == name;
    }
  }

  lemma Middle(front: string, word: string, tail: string)
    ensures
      var s := front + word + tail;
      && s[|front|..|front| + |word|] == word && s[|front| + |word|..] == tail
      && forall k :: |front| <= k < |front| + |word| ==> s[k] == word[k - |front|]
  {
  }

  /** Where something without the characters is followed by one of them. */
  lemma FindBehind(front: string, word: string, tail: string, ends: set<char>)
    requires tail != "" && tail[0] in ends && forall k :: 0 <= k < |word| ==> word[k] !in ends
    ensures
      var s := front + word + tail;
      && Find(s, |front|, ends) == |front| + |word|
      && s[|front|..|front| + |word|] == word && s[|front| + |word|..] == tail
      && s[|front| + |word| + 1..] == tail[1..]
  {
    var s, j := front + word + tail, |front| + |word|;
    Middle(front, word, tail);
    assert j < |s| && s[j] == s[j..][0];
    forall k | |front| <= k < j
      ensures s[k] !in ends
    {
      assert s[k] == word[k - |front|];
    }
    FindFirst(s, |front|, j, ends);
    NextTail(s, j);
  }

  lemma NextTail(s: string, j: nat)
    requires j < |s|
    ensures s[j..][1..] == s[j + 1..]
  {
  }

  // ---------------------------------------------------------------- what is written is read

  /** A piece that can stand here, and whether the next one is inside a start tag. */
  ghost predicate PieceOk(e: Event, inTag: bool) {
    match e
    case Open(prefix, name) => !inTag && PrefixOk(prefix) && NcName(name)
    case Xmlns(d) => inTag && PrefixOk(d.prefix) && '\"' !in d.href
    case Attribute(prefix, name, value) =>
      && inTag && PrefixOk(prefix) && NcName(name) && '\"' !in value
      && prefix != "xmlns" && (prefix == "" ==> name != "xmlns")
    case Close => inTag
    case Chars(text) => !inTag && exists c :: text == Escaped(c, TEXT)
    case End(prefix, name) => !inTag && PrefixOk(prefix) && NcName(name)
  }

  predicate TagBehind(e: Event, inTag: bool) {
    e.Open? || (inTag && !e.Close?)
  }

  ghost predicate Legible(evs: seq<Event>, inTag: bool) {
    if evs == [] then !inTag else PieceOk(evs[0], inTag) && Legible(evs[1..], TagBehind(evs[0], inTag))
  }

  lemma {:induction false} LegibleAppend(a: seq<Event>, b: seq<Event>, inTag: bool)
    requires Legible(a, inTag) && Legible(b, false)
    ensures Legible(a + b, inTag)
    decreases |a|
  {
    if a == [] {
      assert a + b == b;
    } else {
      assert (a + b)[1..] == a[1..] + b;
      LegibleAppend(a[1..], b, TagBehind(a[0], inTag));
    }
  }

  /** Inside a tag a blank or the end of the tag comes next. */
  lemma InTagBegins(evs: seq<Event>)
    requires Legible(evs, true)
    ensures Spell(evs) != "" && Spell(evs)[0] in {' ', '>'}
  {
    assert Spell(evs) == Piece(evs[0]) + Spell(evs[1..]);
  }

  lemma LexOpen(prefix: string, name: string, rest: string)
    requires PrefixOk(prefix) && NcName(name) && rest != "" && rest[0] in {' ', '>'}
    ensures Lex(Piece(Open(prefix, name)) + rest, false) == Then(Open(prefix, name), Lex(rest, true))
  {
    var q, s := QName(prefix, name), Piece(Open(prefix, name)) + rest;
    QNameClear(prefix, name);
    assert s == "<" + q + rest;
    FindBehind("<", q, rest, {' ', '>'});
    assert s[0] == '<' && s[1] == q[0];
    NamedQName(prefix, name);
  }

  /** A qualified name has no delimiter but a colon, and does not begin with one. */
  lemma QNameClear(prefix: string, name: string)
    requires PrefixOk(prefix) && NcName(name)
    ensures
      var q := QName(prefix, name);
      && q != "" && !Delimiter(q[0]) && forall k :: 0 <= k < |q| ==> !Delimiter(q[k]) || q[k] == ':'
  {
  }

  lemma LexEnd(prefix: string, name: string, rest: string)
    requires PrefixOk(prefix) && NcName(name)
    ensures Lex(Piece(End(prefix, name)) + rest, false) == Then(End(prefix, name), Lex(rest, false))
  {
    var q, s := QName(prefix, name), Piece(End(prefix, name)) + rest;
    QNameClear(prefix, name);
    var tail := ">" + rest;
    assert s == "</" + q + tail && tail[1..] == rest;
    FindBehind("</", q, tail, {'>'});
    assert s[0] == '<' && s[1] == '/';
    NamedQName(prefix, name);
  }

  lemma QuotedParts(q: string, value: string, rest: string)
    ensures Quoted(q, value) + rest == " " + q + ("=\"" + (value + ("\"" + rest)))
    ensures Quoted(q, value) + rest == (" " + q + "=\"") + value + ("\"" + rest)
    ensures ("\"" + rest)[1..] == rest
  {
  }

  /** The name, up to the equals sign. */
  lemma QuotedName(q: string, value: string, rest: string)
    requires forall k :: 0 <= k < |q| ==> q[k] != '='
    ensures
      var s := Quoted(q, value) + rest;
      && s[0] == ' ' && Find(s, 1, {'='}) == 1 + |q| && |q| + 2 < |s| && s[|q| + 2] == '\"' && s[1..1 + |q|] == q
  {
    var s := Quoted(q, value) + rest;
    var tail := "=\"" + (value + ("\"" + rest));
    QuotedParts(q, value, rest);
    FindBehind(" ", q, tail, {'='});
    assert s[1 + |q|..][1] == s[|q| + 2] && tail[1] == '\"';
    assert s[0] == " "[0];
  }

  /** The value, up to the quote behind it. */
  lemma QuotedValue(q: string, value: string, rest: string)
    requires '\"' !in value
    ensures
      var s := Quoted(q, value) + rest;
      var end := |q| + 3 + |value|;
      Find(s, |q| + 3, {'\"'}) == end < |s| && s[|q| + 3..end] == value && s[end + 1..] == rest
  {
    QuotedParts(q, value, rest);
    FindBehind(" " + q + "=\"", value, "\"" + rest, {'\"'});
  }

  /** A name, a value and the quote behind it. */
  lemma LexQuoted(q: string, value: string, rest: string, e: Event)
    requires (forall k :: 0 <= k < |q| ==> q[k] != '=') && '\"' !in value && InTag(q, value) == Some(e)
    ensures Lex(Quoted(q, value) + rest, true) == Then(e, Lex(rest, true))
  {
    var s := Quoted(q, value) + rest;
    QuotedName(q, value, rest);
    QuotedValue(q, value, rest);
    LexAt(s, 1 + |q|, |q| + 3 + |value|, e);
  }

  lemma LexAt(s: string, eq: nat, end: nat, e: Event)
    requires s != "" && s[0] == ' ' && Find(s, 1, {'='}) == eq && eq + 1 < |s| && s[eq + 1] == '\"'
    requires Find(s, eq + 2, {'\"'}) == end < |s| && InTag(s[1..eq], s[eq + 2..end]) == Some(e)
    ensures Lex(s, true) == Then(e, Lex(s[end + 1..], true))
  {
  }

  lemma LexXmlns(d: Decl, rest: string)
    requires PrefixOk(d.prefix) && '\"' !in d.href
    ensures Lex(Piece(Xmlns(d)) + rest, true) == Then(Xmlns(d), Lex(rest, true))
  {
    if d.prefix == "" {
      LexQuoted("xmlns", d.href, rest, Xmlns(d));
    } else {
      var q := "xmlns:" + d.prefix;
      assert q == QName("xmlns", d.prefix);
      NamedQName("xmlns", d.prefix);
      QNameClear("xmlns", d.prefix);
      assert |q| > 5;
      LexQuoted(q, d.href, rest, Xmlns(d));
    }
  }

  lemma LexAttribute(prefix: string, name: string, value: string, rest: string)
    requires PieceOk(Attribute(prefix, name, value), true)
    ensures Lex(Piece(Attribute(prefix, name, value)) + rest, true)
         == Then(Attribute(prefix, name, value), Lex(rest, true))
  {
    var q := QName(prefix, name);
    NamedQName(prefix, name);
    QNameClear(prefix, name);
    assert q != "xmlns" by {
      if prefix != "" { assert q[|prefix|] == ':'; }
    }
    LexQuoted(q, value, rest, Attribute(prefix, name, value));
  }

  lemma LexChars(c: char, rest: string)
    ensures Lex(Escaped(c, TEXT) + rest, false) == Then(Chars(Escaped(c, TEXT)), Lex(rest, false))
  {
    var e := Escaped(c, TEXT);
    var s := e + rest;
    assert s[0] == e[0] && s[..|e|] == e && s[|e|..] == rest && s[0] != '\r';
    if |e| > 1 {
      EscapedRefers(c, TEXT, rest);
    }
  }

  lemma LexPiece(e: Event, inTag: bool, rest: string)
    requires PieceOk(e, inTag) && (e.Open? ==> rest != "" && rest[0] in {' ', '>'})
    ensures Lex(Piece(e) + rest, inTag) == Then(e, Lex(rest, TagBehind(e, inTag)))
  {
    match e
    case Open(prefix, name) => LexOpen(prefix, name, rest);
    case Xmlns(d) => LexXmlns(d, rest);
    case Attribute(prefix, name, value) => LexAttribute(prefix, name, value, rest);
    case Close => assert (">" + rest)[1..] == rest;
    case Chars(text) =>
      var c :| text == Escaped(c, TEXT);
      LexChars(c, rest);
    case End(prefix, name) => LexEnd(prefix, name, rest);
  }

  /** How the characters are read. */
  ghost predicate ReadsAs(s: string, evs: seq<Event>, inTag: bool) {
    Lex(s, inTag) == Some(evs)
  }

  lemma ReadsCons(e: Event, evs: seq<Event>, inTag: bool)
    requires PieceOk(e, inTag) && Legible(evs, TagBehind(e, inTag))
    requires ReadsAs(Spell(evs), evs, TagBehind(e, inTag))
    ensures ReadsAs(Piece(e) + Spell(evs), [e] + evs, inTag)
  {
    if e.Open? { InTagBegins(evs); }
    LexPiece(e, inTag, Spell(evs));
  }

  /** The characters of legible pieces are read as those pieces. */
  lemma {:induction false} LexSpells(evs: seq<Event>, inTag: bool)
    requires Legible(evs, inTag)
    ensures ReadsAs(Spell(evs), evs, inTag)
    decreases |evs|
  {
    if evs != [] {
      var e, rest := evs[0], evs[1..];
      LexSpells(rest, TagBehind(e, inTag));
      ReadsCons(e, rest, inTag);
      SpellCons(e, rest);
      assert evs == [e] + rest;
    }
  }

  lemma SpellCons(e: Event, rest: seq<Event>)
    ensures Spell([e] + rest) == Piece(e) + Spell(rest)
  {
    assert ([e] + rest)[1..] == rest;
  }
}

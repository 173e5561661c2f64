/** Publicid URNs: unwrapping undoes the wrapping of RFC 3151, and asking with a URN is asking with what it stands
    for. */
module CatalogUrns {
  import opened XmlString
  import opened CatalogIds
  import opened CatalogSpec

  /** How one character of a public identifier is written in a publicid URN (section 2 of RFC 3151). */
  function Wrapped(c: char): string {
    match c
    case ' ' => "+"
    case '+' => "%2B"
    case ':' => "%3A"
    case '/' => "%2F"
    case ';' => "%3B"
    case '\'' => "%27"
    case '?' => "%3F"
    case '#' => "%23"
    case '%' => "%25"
    case _ => [c]
  }

  /** A public identifier behind urn:publicid: in a URN; two slashes and two colons have characters of their own. */
  function Wrap(s: string): string {
    if s == [] then []
    else if "//" <= s then ":" + Wrap(s[2..])
    else if "::" <= s then ";" + Wrap(s[2..])
    else Wrapped(s[0]) + Wrap(s[1..])
  }

  /** The escapes in a written character, or the character itself, are read as that character. */
  lemma WrappedRead(c: char, rest: string)
    ensures
      var s := Wrapped(c) + rest;
      Piece(s) == ([c], |Wrapped(c)|) && s[|Wrapped(c)|..] == rest
  {
    var w := Wrapped(c);
    var s := w + rest;
    assert s[0] == w[0] && s[..|w|] == w && s[|w|..] == rest;
    assert w <= s;
    assert |w| == 3 ==> s[1] == w[1] && s[2] == w[2];
  }

  lemma PairRead(c: char, rest: string)
    requires c == ':' || c == ';'
    ensures Piece([c] + rest) == (if c == ':' then "//" else "::", 1) && ([c] + rest)[1..] == rest
  {
  }

  /** As far as the buffer of 2000 characters reaches, of which i were used, the result is the identifier. */
  predicate Back(s: string, i: nat, r: string) {
    if i + |s| <= 1997 then r == s
    else r <= s && (if i <= 1997 then 1997 <= i + |r| <= 1998 else r == [])
  }

  lemma BackMore(out: string, s: string, i: nat, r: string)
    requires 1 <= |out| <= 2 && i <= 1996 && Back(s, i + |out|, r)
    ensures Back(out + s, i, out + r)
  {
  }

  /** One step of unwrapping. */
  lemma UnwrapMore(w: string, rest: string, out: string, i: nat)
    requires w != [] && i <= 1996 && Piece(w + rest) == (out, |w|) && (w + rest)[|w|..] == rest
    ensures UnwrapFrom(w + rest, i) == out + UnwrapFrom(rest, i + |out|)
  {
  }

  lemma UnwrapPair(s: string, i: nat)
    requires ("//" <= s || "::" <= s) && i <= 1996
    requires Back(s[2..], i + 2, UnwrapFrom(Wrap(s[2..]), i + 2))
    ensures Back(s, i, UnwrapFrom(Wrap(s), i))
  {
    var c := if "//" <= s then ':' else ';';
    var pair, rest := if "//" <= s then "//" else "::", Wrap(s[2..]);
    assert s == pair + s[2..] && Wrap(s) == [c] + rest;
    PairRead(c, rest);
    UnwrapMore([c], rest, pair, i);
    BackMore(pair, s[2..], i, UnwrapFrom(rest, i + 2));
  }

  lemma UnwrapChar(s: string, i: nat)
    requires s != [] && !("//" <= s) && !("::" <= s) && i <= 1996
    requires Back(s[1..], i + 1, UnwrapFrom(Wrap(s[1..]), i + 1))
    ensures Back(s, i, UnwrapFrom(Wrap(s), i))
  {
    var w, rest := Wrapped(s[0]), Wrap(s[1..]);
    assert s == [s[0]] + s[1..] && Wrap(s) == w + rest;
    WrappedRead(s[0], rest);
    UnwrapMore(w, rest, [s[0]], i);
    BackMore([s[0]], s[1..], i, UnwrapFrom(rest, i + 1));
  }

  /** Unwrapping a wrapped identifier gives it back. */
  lemma {:induction false} UnwrapWrap(s: string, i: nat)
    requires i <= 1998
    ensures Back(s, i, UnwrapFrom(Wrap(s), i))
    decreases |s|
  {
    if s != [] && i <= 1996 {
      if "//" <= s || "::" <= s {
        UnwrapWrap(s[2..], i + 2);
        UnwrapPair(s, i);
      } else {
        UnwrapWrap(s[1..], i + 1);
        UnwrapChar(s, i);
      }
    }
  }

  /** A publicid URN stands for the identifier that is wrapped in it. */
  lemma UrnOf(s: string)
    requires |s| <= 1997
    ensures IsUrn(XML_URN_PUBID + Wrap(s)) && Unwrap(XML_URN_PUBID + Wrap(s)) == s
  {
    UnwrapWrap(s, 0);
    assert (XML_URN_PUBID + Wrap(s))[|XML_URN_PUBID|..] == Wrap(s);
  }

  /** The URN of a normal identifier has no blanks. */
  lemma {:induction false} WrapNoBlanks(s: string)
    requires forall i :: 0 <= i < |s| && Blank(s[i]) ==> s[i] == ' '
    ensures NoBlanks(Wrap(s))
    decreases |s|
  {
    if "//" <= s || "::" <= s {
      WrapNoBlanks(s[2..]);
    } else if s != [] {
      WrapNoBlanks(s[1..]);
      assert NoBlanks(Wrapped(s[0]));
    }
  }

  // ---------------------------------------------------------------- asking with a URN

  /** The publicid URN of an identifier. */
  function UrnFor(id: string): string {
    XML_URN_PUBID + Wrap(id)
  }

  lemma NormalUrn(id: string)
    requires |id| <= 1997 && IsNormal(id)
    ensures NormalId(Some(UrnFor(id))) == Some(UrnFor(id)) && Unwrap(UrnFor(id)) == id
  {
    UrnOf(id);
    WrapNoBlanks(id);
    assert forall i :: 0 <= i < |XML_URN_PUBID| ==> !Blank(XML_URN_PUBID[i]);
    assert IsNormal(UrnFor(id));
    NormalIdempotent(UrnFor(id));
  }

  /** Asking with a URN for the public identifier is asking with the identifier that it stands for. */
  lemma PublicUrn(id: string, sys: Option<string>)
    requires |id| <= 1997 && IsNormal(id)
    ensures Effective(Some(UrnFor(id)), sys) == Effective(Some(id), sys)
  {
    UrnOf(id);
    NormalUrn(id);
  }

  /** With a URN for the system identifier: it serves as the public identifier if there is none, adds nothing if it
      stands for the public identifier, and otherwise asks for what it stands for. */
  lemma SystemUrn(pub: Option<string>, id: string)
    requires |id| <= 1997 && IsNormal(id) && Urns(NormalId(pub)) == 0
    ensures NormalId(pub) == None ==> Effective(pub, Some(UrnFor(id))) == Effective(Some(id), None)
    ensures NormalId(pub) == Some(id) ==> Effective(pub, Some(UrnFor(id))) == (Some(id), None)
    ensures NormalId(pub) != None && NormalId(pub) != Some(id) ==>
      Effective(pub, Some(UrnFor(id))) == Effective(NormalId(pub), Some(id))
  {
    UrnOf(id);
    NormalIdMeasure(pub);
  }
}

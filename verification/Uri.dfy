/** Absolute URIs as the parser of uri.c takes them (RFC 2396 with its own deviations): the scheme, and the server where
    there is one. An index that runs past the string reads as NUL. */
module Uri {
  import opened XmlString

  datatype Uri = Uri(scheme: string, server: Option<string>)

  function At(s: string, i: nat): char {
    if i < |s| then s[i] else '\0'
  }

  // ---------------------------------------------------------------- character classes

  predicate Alpha(c: char) { 'a' <= c <= 'z' || 'A' <= c <= 'Z' }

  predicate Digit(c: char) { '0' <= c <= '9' }

  predicate Alphanum(c: char) { Alpha(c) || Digit(c) }

  predicate Hex(c: char) { Digit(c) || 'a' <= c <= 'f' || 'A' <= c <= 'F' }

  predicate Unreserved(c: char) {
    Alphanum(c) || c in {'-', '_', '.', '!', '~', '*', '\'', '(', ')'}
  }

  predicate EscapeAt(s: string, i: nat) {
    At(s, i) == '%' && Hex(At(s, i + 1)) && Hex(At(s, i + 2))
  }

  /** The classes that are scanned, apart from unreserved characters and escapes; PATH is what the loops over path
      segments and their parameters run over. */
  datatype Class = URIC | NO_SLASH | PATH | REG_NAME | USERINFO | FRAGMENT

  predicate Also(class_: Class, c: char) {
    match class_
    case URIC => c in {';', '/', '?', ':', '@', '&', '=', '+', '$', ',', '[', ']'}
    case NO_SLASH => c in {';', '?', ':', '@', '&', '=', '+', '$', ','}
    case PATH => c in {':', '@', '&', '=', '+', '$', ',', ';', '/'}
    case REG_NAME => c in {'$', ',', ';', ':', '@', '&', '=', '+'}
    case USERINFO => c in {';', ':', '&', '=', '+', '$', ','}
    case FRAGMENT =>
      c in {';', '/', '?', ':', '@', '&', '=', '+', '$', ',', '[', ']', '{', '}', '|', '\\', '^', '`'}
  }

  predicate In(class_: Class, s: string, i: nat) {
    i < |s| && (Unreserved(s[i]) || EscapeAt(s, i) || Also(class_, s[i]))
  }

  /** What can occur in an accepted URI: printable, and neither a quote nor an opening angle bracket. */
  predicate UriChar(c: char) {
    '!' <= c <= '~' && c != '\"' && c != '<'
  }

  ghost predicate UriChars(s: string, i: nat, j: nat) {
    i <= j <= |s| && forall k :: i <= k < j ==> UriChar(s[k])
  }

  /** The next position: an escape is skipped whole. */
  function After(s: string, i: nat): nat
    requires i < |s|
  {
    if s[i] == '%' then i + 3 else i + 1
  }

  // ---------------------------------------------------------------- scanning

  function Scan(class_: Class, s: string, i: nat): (j: nat)
    requires i <= |s|
    ensures UriChars(s, i, j)
    decreases |s| - i
  {
    if !In(class_, s, i) then i
    else
      assert UriChar(s[i]) && (s[i] == '%' ==> UriChar(s[i + 1]) && UriChar(s[i + 2]));
      Scan(class_, s, After(s, i))
  }

  function SkipDigits(s: string, i: nat): (j: nat)
    requires i <= |s|
    ensures UriChars(s, i, j)
    decreases |s| - i
  {
    if i < |s| && Digit(s[i]) then SkipDigits(s, i + 1) else i
  }

  function SkipHex(s: string, i: nat): (j: nat)
    requires i <= |s|
    ensures UriChars(s, i, j)
    decreases |s| - i
  {
    if i < |s| && Hex(s[i]) then SkipHex(s, i + 1) else i
  }

  function SkipAlphanum(s: string, i: nat): (j: nat)
    requires i <= |s|
    ensures UriChars(s, i, j)
    decreases |s| - i
  {
    if i < |s| && Alphanum(s[i]) then SkipAlphanum(s, i + 1) else i
  }

  function SkipScheme(s: string, i: nat): (j: nat)
    requires i <= |s|
    ensures UriChars(s, i, j)
    decreases |s| - i
  {
    if i < |s| && (Alphanum(s[i]) || s[i] in {'+', '-', '.'}) then SkipScheme(s, i + 1) else i
  }

  // ---------------------------------------------------------------- the server (xmlParseURIServer)

  /** The loop over the parts of an IPv6 address: where it stops, how many parts were passed, and whether a part was
      compressed. */
  function V6(s: string, i: nat, oct: nat, compress: bool): (r: Option<(nat, nat, bool)>)
    requires i <= |s| && oct <= 8
    ensures r.Some? ==> UriChars(s, i, r.value.0)
    decreases 8 - oct
  {
    if oct == 8 then Some((i, oct, compress))
    else if At(s, i) == ':' then
      if compress || (oct == 0 && At(s, i + 1) != ':') then None
      else V6(s, if oct == 0 then i + 2 else i + 1, oct + 1, true)
    else
      var j := SkipHex(s, i);
      if oct == 7 then Some((j, 8, compress))
      else if At(s, j) != ':' then Some((j, oct, compress))
      else V6(s, j + 1, oct + 1, compress)
  }

  /** The loop over the numbers of an IPv4 address. */
  function V4(s: string, i: nat, oct: nat): (r: Option<(nat, nat)>)
    requires i <= |s| && oct <= 4
    ensures r.Some? ==> UriChars(s, i, r.value.0)
    decreases 4 - oct
  {
    if oct == 4 then Some((i, oct))
    else if At(s, i) == '.' then None
    else
      var j := SkipDigits(s, i);
      if oct == 3 then Some((j, 4))
      else if At(s, j) != '.' then Some((j, oct))
      else V4(s, j + 1, oct + 1)
  }

  /** The labels of a host name, from a character of the first one on. */
  function Labels(s: string, i: nat): (r: Option<nat>)
    requires i < |s| && UriChar(s[i])
    ensures r.Some? ==> i < r.value && UriChars(s, i, r.value)
    decreases |s| - i
  {
    var j := SkipAlphanum(s, i + 1);
    if At(s, j) == '-' then (if s[j - 1] == '.' then None else Labels(s, j))
    else if At(s, j) == '.' then (if s[j - 1] in {'-', '.'} then None else Labels(s, j))
    else Some(j)
  }

  /** Where the letters and digits in front of position i begin. */
  function BackAlphanum(s: string, host: nat, i: nat): (j: nat)
    requires host <= i <= |s|
    ensures host <= j <= i
  {
    if host < i && Alphanum(s[i - 1]) then BackAlphanum(s, host, i - 1) else i
  }

  /** A host name that begins at `host` and is looked at from position i on. */
  function HostName(s: string, host: nat, i: nat): (r: Option<nat>)
    requires host <= i <= |s|
    ensures r.Some? ==> UriChars(s, i, r.value)
  {
    if !Alphanum(At(s, i)) then None
    else
      var end := Labels(s, i);
      if end.None? then None
      else
        var last := if s[end.value - 1] == '.' then end.value - 1 else end.value;
        var top := BackAlphanum(s, host, last);
        if (top == host || s[top - 1] == '.') && !Alpha(At(s, top)) then None else end
  }

  /** Where an address in brackets ends, apart from the closing one. */
  function AddressEnd(s: string, i: nat): (r: Option<nat>)
    requires i <= |s|
    ensures r.Some? ==> UriChars(s, i, r.value) && r.value < |s| && s[r.value] == ']'
  {
    var v6 := V6(s, i, 0, false);
    if v6.None? || (!v6.value.2 && v6.value.1 != 8) || At(s, v6.value.0) != ']' then None else Some(v6.value.0)
  }

  /** Where an address of four numbers ends, or a name. */
  function NameEnd(s: string, host: nat): (r: Option<nat>)
    requires host <= |s|
    ensures r.Some? ==> UriChars(s, host, r.value)
  {
    var v4 := V4(s, host, 0);
    if v4.None? then None
    else
      var i := v4.value.0;
      if v4.value.1 < 4 || Alpha(At(s, i)) then HostName(s, host, i)
      else if At(s, i) == '.' then HostName(s, host, i + 1)
      else Some(i)
  }

  /** The server, and where it ends. */
  function Host(s: string, host: nat): (r: Option<(string, nat)>)
    requires host <= |s|
    ensures r.Some? ==> UriChars(s, host, r.value.1)
  {
    if At(s, host) == '[' then
      var end := AddressEnd(s, host + 1);
      if end.None? then None else Some((s[host + 1..end.value], end.value + 1))
    else
      var end := NameEnd(s, host);
      if end.None? then None else Some((s[host..end.value], end.value))
  }

  /** What a character introduces, if it stands here. */
  function Optional(c: char, class_: Class, s: string, i: nat): (j: nat)
    requires i <= |s| && UriChar(c)
    ensures UriChars(s, i, j)
  {
    if At(s, i) == c then Scan(class_, s, i + 1) else i
  }

  function SkipUser(s: string, i: nat): (j: nat)
    requires i <= |s|
    ensures UriChars(s, i, j)
  {
    var user := Scan(USERINFO, s, i);
    if At(s, user) == '@' then user + 1 else i
  }

  function SkipPort(s: string, i: nat): (j: nat)
    requires i <= |s|
    ensures UriChars(s, i, j)
  {
    if At(s, i) == ':' then SkipDigits(s, i + 1) else i
  }

  lemma Joined(s: string, i: nat, j: nat, k: nat)
    requires UriChars(s, i, j) && UriChars(s, j, k)
    ensures UriChars(s, i, k)
  {
  }

  /** The server and the end of what was read. With a slash where the host should be nothing is read. */
  function ParseServer(s: string, i: nat): (r: Option<(Option<string>, nat)>)
    requires i <= |s|
    ensures r.Some? ==> UriChars(s, i, r.value.1)
  {
    var host := SkipUser(s, i);
    if At(s, host) == '/' then Some((None, i))
    else
      var h := Host(s, host);
      if h.None? then None
      else
        Joined(s, i, host, h.value.1);
        Joined(s, i, h.value.1, SkipPort(s, h.value.1));
        Some((Some(h.value.0), SkipPort(s, h.value.1)))
  }

  /** xmlParseURIAuthority: a server, or else a registered name. */
  function ParseAuthority(s: string, i: nat): (r: Option<(Option<string>, nat)>)
    requires i <= |s|
    ensures r.Some? ==> UriChars(s, i, r.value.1)
  {
    var server := ParseServer(s, i);
    if server.Some? && (server.value.1 == |s| || s[server.value.1] in {'/', '?'}) then server
    else if !In(REG_NAME, s, i) then None
    else Some((None, Scan(REG_NAME, s, i)))
  }

  /** xmlParseURIHierPart, where a slash stands: the authority, the path and the query. */
  function ParseHierPart(s: string, i: nat): (r: Option<(Option<string>, nat)>)
    requires i < |s| && s[i] == '/'
    ensures r.Some? ==> UriChars(s, i, r.value.1)
  {
    var authority := if At(s, i + 1) == '/' then ParseAuthority(s, i + 2) else Some((None, i));
    if authority.None? then None
    else
      var path := Optional('/', PATH, s, authority.value.1);
      var query := Optional('?', URIC, s, path);
      Joined(s, i, authority.value.1, path);
      Joined(s, i, path, query);
      Some((authority.value.0, query))
  }

  /** xmlParseURIReference on what has a scheme: everything must have been read, a fragment at the end included. */
  function ParseAbsolute(s: string): (r: Option<Uri>)
    ensures r.Some? ==> UriChars(s, 0, |s|)
  {
    if s == [] || !Alpha(s[0]) then None
    else
      var colon := SkipScheme(s, 1);
      if At(s, colon) != ':' then None
      else
        var part := ParsePart(s, colon + 1);
        if part.None? then None
        else
          var end := Optional('#', FRAGMENT, s, part.value.1);
          if end == |s| then Some(Uri(s[..colon], part.value.0)) else None
  }

  /** Behind the scheme: a hierarchical part, or an opaque one. */
  function ParsePart(s: string, i: nat): (r: Option<(Option<string>, nat)>)
    requires i <= |s|
    ensures r.Some? ==> UriChars(s, i, r.value.1)
  {
    if At(s, i) == '/' then ParseHierPart(s, i)
    else if !In(NO_SLASH, s, i) then None
    else Some((None, Scan(URIC, s, After(s, i))))
  }

  // ---------------------------------------------------------------- the test for relative URIs

  function Lower(c: char): char {
    if 'A' <= c <= 'Z' then (c as int + 32) as char else c
  }

  /** Equality without regard to the case of ASCII letters. */
  predicate SameNoCase(a: string, b: string) {
    |a| == |b| && forall i :: 0 <= i < |a| ==> Lower(a[i]) == Lower(b[i])
  }

  /** A namespace URI that is not relative: none at all, or a scheme with a server, where urn and dav need none. */
  predicate Absolute(href: string) {
    href == "" ||
    var uri := ParseAbsolute(href);
    uri.Some? && (SameNoCase(uri.value.scheme, "urn") || SameNoCase(uri.value.scheme, "dav")
                  || (uri.value.server.Some? && uri.value.server.value != ""))
  }

  /** Such a URI has no character that an attribute value must escape, except for ampersands. */
  lemma AbsoluteChars(href: string, i: nat)
    requires Absolute(href) && i < |href|
    ensures UriChar(href[i])
  {
    assert UriChars(href, 0, |href|);
  }

  /** Any characters of the class URIC may follow urn: as long as the first one is not a slash. */
  lemma UrnAbsolute(rest: string)
    requires rest != [] && In(NO_SLASH, rest, 0) && forall i :: 0 <= i < |rest| ==> rest[i] != '%' && In(URIC, rest, i)
    ensures Absolute("urn:" + rest)
  {
    var s := "urn:" + rest;
    assert SkipScheme(s, 1) == 3 by {
      assert SkipScheme(s, 3) == 3;
      assert SkipScheme(s, 2) == 3;
    }
    forall i | 4 <= i < |s|
      ensures s[i] != '%' && In(URIC, s, i)
    {
      assert In(URIC, rest, i - 4);
    }
    ScanAll(s, 5);
    assert s[..3] == "urn";
  }

  lemma {:induction false} SchemeChars(s: string, i: nat, k: nat)
    requires i <= |s| && i <= k < SkipScheme(s, i)
    ensures UriChars(s, i, SkipScheme(s, i)) && (Alphanum(s[k]) || s[k] in {'+', '-', '.'})
    decreases |s| - i
  {
    if i < k { SchemeChars(s, i + 1, k); }
  }

  /** A server is found only where no slash stands. */
  lemma ServerBegins(s: string, i: nat)
    requires i <= |s| && ParseAuthority(s, i).Some? && ParseAuthority(s, i).value.0.Some?
    requires ParseAuthority(s, i).value.0.value != ""
    ensures i < |s| && s[i] != '/'
  {
    var server := ParseServer(s, i).value;
    assert server.0.Some?;
  }

  /** A scheme and its colon. */
  ghost predicate SchemeTo(href: string, colon: nat) {
    && 0 < colon < |href| && Alpha(href[0]) && href[colon] == ':'
    && forall k :: 0 < k < colon ==> Alphanum(href[k]) || href[k] in {'+', '-', '.'}
  }

  /** Two slashes from position i on, and then something that is no slash. */
  ghost predicate ServerFrom(href: string, i: nat) {
    i + 2 < |href| && href[i] == '/' && href[i + 1] == '/' && href[i + 2] != '/'
  }

  lemma SchemeIs(href: string)
    requires ParseAbsolute(href).Some?
    ensures
      var colon := SkipScheme(href, 1);
      SchemeTo(href, colon) && ParseAbsolute(href).value.scheme == href[..colon]
  {
    var colon := SkipScheme(href, 1);
    forall k | 0 < k < colon
      ensures Alphanum(href[k]) || href[k] in {'+', '-', '.'}
    {
      SchemeChars(href, 1, k);
    }
  }

  lemma ServerIs(href: string, i: nat)
    requires i <= |href| && ParsePart(href, i).Some? && ParsePart(href, i).value.0.Some?
    requires ParsePart(href, i).value.0.value != ""
    ensures ServerFrom(href, i)
  {
    assert At(href, i) == '/' && At(href, i + 1) == '/';
    ServerBegins(href, i + 2);
  }

  /** What a URI that is not relative looks like: a scheme and a colon; and behind that, unless the scheme is urn or dav
      in any case, two slashes and a server. */
  lemma AbsoluteHasServer(href: string)
    requires Absolute(href) && href != ""
    ensures exists colon: nat :: SchemeTo(href, colon)
              && (ServerFrom(href, colon + 1) || SameNoCase(href[..colon], "urn") || SameNoCase(href[..colon], "dav"))
  {
    var colon := SkipScheme(href, 1);
    SchemeIs(href);
    var uri := ParseAbsolute(href).value;
    if uri.server.Some? && uri.server.value != "" {
      ServerIs(href, colon + 1);
    }
  }

  lemma {:induction false} SkipLetters(s: string, i: nat, j: nat)
    requires i <= j <= |s| && (forall k :: i <= k < j ==> Alpha(s[k])) && !Alphanum(At(s, j))
    ensures SkipAlphanum(s, i) == j
    ensures At(s, j) == ':' ==> SkipScheme(s, i) == j
    decreases j - i
  {
    if i < j { SkipLetters(s, i + 1, j); }
  }

  lemma {:induction false} BackLetters(s: string, i: nat, j: nat)
    requires i <= j <= |s| && forall k :: i <= k < j ==> Alpha(s[k])
    ensures BackAlphanum(s, i, j) == i
    decreases j
  {
    if i < j { BackLetters(s, i, j - 1); }
  }

  /** A host of letters, up to a slash or the end. */
  lemma LetterHost(s: string, i: nat, j: nat)
    requires i < j <= |s| && (forall k :: i <= k < j ==> Alpha(s[k])) && (j < |s| ==> s[j] == '/')
    ensures ParseAuthority(s, i) == Some((Some(s[i..j]), j))
  {
    SkipLetters(s, i + 1, j);
    BackLetters(s, i, j);
    assert Labels(s, i) == Some(j);
    assert SkipDigits(s, i) == i && V4(s, i, 0) == Some((i, 0));
    assert NameEnd(s, i) == Some(j);
    UserLetters(s, i, j);
  }

  lemma {:induction false} UserLetters(s: string, i: nat, j: nat)
    requires i <= j <= |s| && (forall k :: i <= k < j ==> Alpha(s[k])) && (j < |s| ==> s[j] == '/')
    ensures Scan(USERINFO, s, i) == j
    decreases j - i
  {
    if i < j { UserLetters(s, i + 1, j); }
  }

  lemma {:induction false} ScanPath(s: string, i: nat)
    requires i <= |s| && forall k :: i <= k < |s| ==> Alphanum(s[k]) || s[k] in {'/', '-', '.', '_', '~'}
    ensures Scan(PATH, s, i) == |s|
    decreases |s| - i
  {
    if i < |s| { ScanPath(s, i + 1); }
  }

  lemma PathToEnd(s: string, j: nat)
    requires j <= |s| && (j < |s| ==> s[j] == '/')
    requires forall k :: j <= k < |s| ==> Alphanum(s[k]) || s[k] in {'/', '-', '.', '_', '~'}
    ensures Optional('/', PATH, s, j) == |s|
  {
    if j < |s| { ScanPath(s, j + 1); }
  }

  lemma ServerHier(s: string, i: nat, j: nat, host: string)
    requires i + 1 < j <= |s| && s[i] == '/' && s[i + 1] == '/' && ParseAuthority(s, i + 2) == Some((Some(host), j))
    requires Optional('/', PATH, s, j) == |s|
    ensures ParsePart(s, i) == Some((Some(host), |s|))
  {
  }

  lemma PartAbsolute(s: string, c: nat, host: string)
    requires c < |s| && Alpha(s[0]) && SkipScheme(s, 1) == c && s[c] == ':' && host != ""
    requires ParsePart(s, c + 1) == Some((Some(host), |s|))
    ensures Absolute(s)
  {
    assert ParseAbsolute(s) == Some(Uri(s[..c], Some(host)));
  }

  /** And with letters for the scheme and the server, and any path of letters, digits and the like, a URI is not
      relative. */
  lemma ServerAbsolute(s: string, c: nat, j: nat)
    requires 0 < c && c + 3 < j <= |s| && s[c] == ':' && s[c + 1] == '/' && s[c + 2] == '/'
    requires (forall k :: 0 <= k < c ==> Alpha(s[k])) && forall k :: c + 3 <= k < j ==> Alpha(s[k])
    requires j < |s| ==> s[j] == '/'
    requires forall k :: j <= k < |s| ==> Alphanum(s[k]) || s[k] in {'/', '-', '.', '_', '~'}
    ensures Absolute(s)
  {
    SkipLetters(s, 1, c);
    LetterHost(s, c + 3, j);
    PathToEnd(s, j);
    ServerHier(s, c + 1, j, s[c + 3..j]);
    PartAbsolute(s, c, s[c + 3..j]);
  }

  lemma {:induction false} ScanAll(s: string, i: nat)
    requires i <= |s| && forall k :: i <= k < |s| ==> s[k] != '%' && In(URIC, s, k)
    ensures Scan(URIC, s, i) == |s|
    decreases |s| - i
  {
    if i < |s| {
      ScanAll(s, i + 1);
    }
  }
}

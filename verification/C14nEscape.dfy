/** Canonical escaping of attribute values and text (xmlC11NNormalizeString). */
module C14nEscape {
  import opened XmlString
  import opened Memory

  datatype EscapeMode = ATTR | COMMENT | PI | TEXT

  /** The replacement of one character. */
  function Escaped(c: char, mode: EscapeMode): (r: string)
    ensures 1 <= |r| <= 6
  {
    if c == '<' && (mode.ATTR? || mode.TEXT?) then "&lt;"
    else if c == '>' && mode.TEXT? then "&gt;"
    else if c == '&' && (mode.ATTR? || mode.TEXT?) then "&amp;"
    else if c == '\"' && mode.ATTR? then "&quot;"
    else if c == '\t' && mode.ATTR? then "&#x9;"
    else if c == '\n' && mode.ATTR? then "&#xA;"
    else if c == '\r' then "&#xD;"
    else [c]
  }

  function Escape(s: string, mode: EscapeMode): string {
    if s == [] then [] else Escaped(s[0], mode) + Escape(s[1..], mode)
  }

  /** Char in section 2.2 of XML 1.0. */
  predicate XmlChar(n: int) {
    n == 9 || n == 10 || n == 13 || 0x20 <= n <= 0xD7FF || 0xE000 <= n <= 0xFFFD || 0x10000 <= n <= 0x10FFFF
  }

  function DigitValue(c: char): nat {
    if '0' <= c <= '9' then c as int - '0' as int
    else if 'A' <= c <= 'F' then c as int - 'A' as int + 10
    else if 'a' <= c <= 'f' then c as int - 'a' as int + 10
    else 16
  }

  /** Digits up to a semicolon, `count` of them already read as `n`: their value, and where the semicolon ends. */
  function Number(s: string, base: nat, n: nat, count: nat): (r: Option<(nat, nat)>)
    ensures r.Some? ==> count < r.value.1 <= count + |s|
  {
    if s == [] then None
    else if s[0] == ';' && count > 0 then Some((n, count + 1))
    else if DigitValue(s[0]) < base then Number(s[1..], base, n * base + DigitValue(s[0]), count + 1)
    else None
  }

  function CharRef(s: string, base: nat, start: nat): (r: Option<(char, nat)>)
    requires start <= |s|
    ensures r.Some? ==> start < r.value.1 <= |s|
  {
    var n := Number(s[start..], base, 0, 0);
    if n.None? || !XmlChar(n.value.0) then None else Some((n.value.0 as char, start + n.value.1))
  }

  /** A reference at the start: the character that it stands for, and its length. A document without a document
      type has the predefined entities and character references. */
  function Reference(s: string): (r: Option<(char, nat)>)
    ensures r.Some? ==> 3 <= r.value.1 <= |s|
  {
    if "&lt;" <= s then Some(('<', 4))
    else if "&gt;" <= s then Some(('>', 4))
    else if "&amp;" <= s then Some(('&', 5))
    else if "&quot;" <= s then Some(('\"', 6))
    else if "&apos;" <= s then Some(('\'', 6))
    else if "&#x" <= s then CharRef(s, 16, 3)
    else if "&#" <= s then CharRef(s, 10, 2)
    else None
  }

  /** What an XML reader makes of a double-quoted attribute value (ATTR) or of character data (TEXT); None where
      that is not well formed. References are decoded, line ends become newlines, and white space in an attribute
      value becomes spaces (sections 2.11 and 3.3.3 of XML 1.0). */
  function Unescape(s: string, mode: EscapeMode): Option<string> {
    if s == [] then Some([])
    else if s[0] == '&' then
      var ref := Reference(s);
      if ref.None? then None else Before(ref.value.0, Unescape(s[ref.value.1..], mode))
    else if s[0] == '<' || (s[0] == '\"' && mode.ATTR?) then None
    else if s[0] == '\r' then
      Before(if mode.ATTR? then ' ' else '\n', Unescape(s[if "\r\n" <= s then 2 else 1..], mode))
    else if (s[0] == '\n' || s[0] == '\t') && mode.ATTR? then Before(' ', Unescape(s[1..], mode))
    else Before(s[0], Unescape(s[1..], mode))
  }

  function Before(c: char, r: Option<string>): Option<string> {
    if r.None? then None else Some([c] + r.value)
  }

  lemma HexDigitRead(d: char, rest: string)
    requires DigitValue(d) < 16
    ensures Number([d, ';'] + rest, 16, 0, 0) == Some((DigitValue(d), 2))
  {
    assert ([d, ';'] + rest)[1..] == [';'] + rest;
  }

  /** Each replacement of more than one character is a reference to the character that it replaces. */
  lemma EscapedRefers(c: char, mode: EscapeMode, rest: string)
    requires |Escaped(c, mode)| > 1
    ensures Reference(Escaped(c, mode) + rest) == Some((c, |Escaped(c, mode)|))
  {
    var e := Escaped(c, mode);
    var s := e + rest;
    assert s[..|e|] == e && e <= s;
    assert s[0] == '&' && s[1] == e[1] && s[2] == e[2] && s[3] == e[3];
    if e[1] == '#' {
      assert s[3..] == [e[3], ';'] + rest;
      HexDigitRead(e[3], rest);
    }
  }

  lemma UnescapeStep(c: char, rest: string, mode: EscapeMode)
    requires mode.ATTR? || mode.TEXT?
    ensures Unescape(Escaped(c, mode) + rest, mode) == Before(c, Unescape(rest, mode))
  {
    var e := Escaped(c, mode);
    assert (e + rest)[|e|..] == rest && (e + rest)[0] == e[0];
    if |e| > 1 {
      EscapedRefers(c, mode, rest);
    }
  }

  /** A reader gets the value back, in both escaping modes; so no delimiter and no bare ampersand is left. */
  lemma {:induction false} UnescapeEscape(s: string, mode: EscapeMode)
    requires mode.ATTR? || mode.TEXT?
    ensures Unescape(Escape(s, mode), mode) == Some(s)
  {
    if s != [] {
      UnescapeEscape(s[1..], mode);
      UnescapeStep(s[0], Escape(s[1..], mode), mode);
      assert [s[0]] + s[1..] == s;
    }
  }

  /** No raw delimiter is left: neither '<' nor a bare carriage return in both modes, no '>' in text, no
      quote, tab or newline in an attribute value; and every ampersand begins a reference. */
  lemma {:induction false} NoRawDelimiter(s: string, mode: EscapeMode)
    requires mode.ATTR? || mode.TEXT?
    ensures forall c | c in Escape(s, mode) ::
              && c != '<' && c != '\r' && (mode.TEXT? ==> c != '>')
              && (mode.ATTR? ==> c != '\"' && c != '\t' && c != '\n')
    ensures forall i | 0 <= i < |Escape(s, mode)| && Escape(s, mode)[i] == '&' :: Reference(Escape(s, mode)[i..]).Some?
  {
    if s != [] {
      var piece, rest := Escaped(s[0], mode), Escape(s[1..], mode);
      NoRawDelimiter(s[1..], mode);
      PieceClean(s[0], mode);
      forall i | 0 <= i < |piece + rest| && (piece + rest)[i] == '&'
        ensures Reference((piece + rest)[i..]).Some?
      {
        PieceAmpersand(s[0], rest, i, mode);
      }
    }
  }

  lemma PieceClean(c: char, mode: EscapeMode)
    requires mode.ATTR? || mode.TEXT?
    ensures forall x | x in Escaped(c, mode) ::
              && x != '<' && x != '\r' && (mode.TEXT? ==> x != '>')
              && (mode.ATTR? ==> x != '\"' && x != '\t' && x != '\n')
  {
  }

  lemma PieceAmpersand(c: char, rest: string, i: nat, mode: EscapeMode)
    requires mode.ATTR? || mode.TEXT?
    requires i < |Escaped(c, mode) + rest| && (Escaped(c, mode) + rest)[i] == '&'
    requires forall j | 0 <= j < |rest| && rest[j] == '&' :: Reference(rest[j..]).Some?
    ensures Reference((Escaped(c, mode) + rest)[i..]).Some?
  {
    var e := Escaped(c, mode);
    if i < |e| {
      assert i == 0 && (e + rest)[0..] == e + rest;
      EscapedRefers(c, mode, rest);
    } else {
      assert (e + rest)[i..] == rest[i - |e|..];
    }
  }

  /** Characters that mean something else, or nothing, between double quotes. */
  predicate Special(c: char) {
    c == '&' || c == '<' || c == '\"' || c == '\t' || c == '\n' || c == '\r'
  }

  predicate Plain(s: string) {
    forall i :: 0 <= i < |s| ==> !Special(s[i])
  }

  lemma PlainCons(s: string)
    requires s != []
    ensures Plain(s) <==> !Special(s[0]) && Plain(s[1..])
  {
    assert s == [s[0]] + s[1..];
  }

  /** Written without escaping, an attribute value reads as itself exactly if it is plain; otherwise it is refused
      or reads as another value. */
  lemma {:induction false} RawValueReads(s: string)
    ensures Unescape(s, ATTR) == Some(s) <==> Plain(s)
    ensures Unescape(s, ATTR).Some? ==> |Unescape(s, ATTR).value| <= |s|
    ensures s != [] && Unescape(s, ATTR).Some? ==> Unescape(s, ATTR).value != []
    decreases |s|
  {
    if s != [] {
      PlainCons(s);
      assert s == [s[0]] + s[1..];
      if s[0] == '&' {
        var ref := Reference(s);
        if ref.Some? {
          RawValueReads(s[ref.value.1..]);
        }
      } else if s[0] == '\r' {
        RawValueReads(s[if "\r\n" <= s then 2 else 1..]);
      } else {
        RawValueReads(s[1..]);
      }
    }
  }

  /** What stands behind a plain beginning. */
  lemma {:induction false} UnescapePlain(a: string, b: string)
    requires Plain(a)
    ensures Unescape(a + b, ATTR) == if Unescape(b, ATTR).None? then None else Some(a + Unescape(b, ATTR).value)
    decreases |a|
  {
    var r := Unescape(b, ATTR);
    if a == [] {
      assert a + b == b;
      assert r.Some? ==> a + r.value == r.value;
    } else {
      PlainCons(a);
      assert (a + b)[1..] == a[1..] + b;
      UnescapePlain(a[1..], b);
      assert r.Some? ==> [a[0]] + (a[1..] + r.value) == a + r.value;
    }
  }

  /** The characters that are replaced, by mode (section 2.3 of Canonical XML 1.0). */
  predicate Replaced(c: char, mode: EscapeMode) {
    match mode
    case ATTR => c in "&<\"\t\n\r"
    case TEXT => c in "&<>\r"
    case _ => c == '\r'
  }

  lemma {:induction false} EscapeAppend(a: string, b: string, mode: EscapeMode)
    ensures Escape(a + b, mode) == Escape(a, mode) + Escape(b, mode)
  {
    if a == [] {
      assert a + b == b;
    } else {
      assert (a + b)[1..] == a[1..] + b;
      EscapeAppend(a[1..], b, mode);
    }
  }

  /** Nothing else is replaced: a text is written as it stands exactly if it has none of these characters. */
  lemma {:induction false} EscapeKeeps(s: string, mode: EscapeMode)
    ensures Escape(s, mode) == s <==> forall i :: 0 <= i < |s| ==> !Replaced(s[i], mode)
    ensures |Escape(s, mode)| >= |s|
  {
    if s != [] {
      var piece, rest := Escaped(s[0], mode), Escape(s[1..], mode);
      EscapeKeeps(s[1..], mode);
      assert s == [s[0]] + s[1..];
      PieceKeeps(s[0], mode);
      assert Escape(s, mode) == piece + rest;
      if piece + rest == s {
        assert |piece| == 1 && |rest| == |s[1..]|;
        assert (piece + rest)[..1] == piece && (piece + rest)[1..] == rest;
      }
    }
  }

  lemma PieceKeeps(c: char, mode: EscapeMode)
    ensures Replaced(c, mode) ==> |Escaped(c, mode)| > 1
    ensures !Replaced(c, mode) ==> Escaped(c, mode) == [c]
  {
  }

  lemma EscapeOne(c: char, mode: EscapeMode)
    ensures Escape([c], mode) == Escaped(c, mode)
  {
    assert [c][1..] == [] && Escaped(c, mode) + [] == Escaped(c, mode);
  }

  /** What is written for them; a text is written character by character. */
  lemma AttributeForms()
    ensures Escape("&", ATTR) == "&amp;" && Escape("<", ATTR) == "&lt;" && Escape("\"", ATTR) == "&quot;"
    ensures Escape("\t", ATTR) == "&#x9;" && Escape("\n", ATTR) == "&#xA;" && Escape("\r", ATTR) == "&#xD;"
  {
    EscapeOne('&', ATTR);
    EscapeOne('<', ATTR);
    EscapeOne('\"', ATTR);
    EscapeOne('\t', ATTR);
    EscapeOne('\n', ATTR);
    EscapeOne('\r', ATTR);
  }

  lemma TextForms()
    ensures Escape("&", TEXT) == "&amp;" && Escape("<", TEXT) == "&lt;" && Escape(">", TEXT) == "&gt;"
    ensures Escape("\r", TEXT) == "&#xD;"
  {
    EscapeOne('&', TEXT);
    EscapeOne('<', TEXT);
    EscapeOne('>', TEXT);
    EscapeOne('\r', TEXT);
  }

  lemma EscapeStep(input: string, cur: nat, mode: EscapeMode, done: string)
    requires cur < |input|
    ensures done + Escape(input[cur..], mode) == done + Escaped(input[cur], mode) + Escape(input[cur + 1..], mode)
  {
    assert input[cur..][1..] == input[cur + 1..];
    var piece, rest := Escaped(input[cur], mode), Escape(input[cur + 1..], mode);
    assert done + (piece + rest) == done + piece + rest;
  }

  /** xmlC11NNormalizeString: the translation buffer starts at 1000 bytes and doubles whenever fewer than ten
      are left, so every write, and the final NUL, stays inside it. */
  method NormalizeString(input: string, mode: EscapeMode) returns (r: string)
    ensures r == Escape(input, mode)
  {
    var buffer := new char[1000];
    var out := 0;
    var cur := 0;
    while cur < |input|
      invariant 0 <= cur <= |input|
      invariant 0 <= out <= buffer.Length - 4 && 1000 <= buffer.Length
      invariant fresh(buffer)
      invariant Escape(input, mode) == buffer[..out] + Escape(input[cur..], mode)
    {
      ghost var done := buffer[..out];
      if out > buffer.Length - 10 {
        buffer := Realloc(buffer, 2 * buffer.Length);
        assert buffer[..out] == done;
      }
      var piece := Escaped(input[cur], mode);
      Memcpy(buffer, out, piece);
      out := out + |piece|;
      EscapeStep(input, cur, mode, done);
      cur := cur + 1;
    }
    buffer[out] := '\0';
    r := buffer[..out];
  }
}

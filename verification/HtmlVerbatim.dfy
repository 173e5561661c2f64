/** Attribute values that mean themselves, and hexadecimal character references. Unlike the encoder's output such values
    may hold ampersands, as a query in a link does. */
module HtmlVerbatim {
  import opened XmlString
  import opened Utf8
  import opened HtmlEntities
  import opened HtmlAttribute
  import opened HtmlRoundTrip

  // ---------------------------------------------------------------- text that means itself

  /** ASCII without NUL and without the beginning of a character reference, where no entity's name stands between an
      ampersand and a semicolon. */
  ghost predicate Verbatim(table: seq<Entity>, w: seq<Byte>) {
    && (forall i :: 0 <= i < |w| ==> 0 < w[i] < 0x80)
    && (forall i :: 0 <= i < |w| - 1 ==> !(w[i] == '&' as int && w[i + 1] == '#' as int))
    && forall i, j, k :: 0 <= i < j < |w| && w[i] == '&' as int && w[j] == ';' as int && 0 <= k < |table| ==>
         w[i + 1..j] != table[k].name
  }

  /** A blank, or the end of a tag. */
  predicate BlankOrGt(c: Byte) {
    c == ' ' as int || c == '\t' as int || c == '\n' as int || c == '\r' as int || c == '>' as int
  }

  /** What ends the value: the quote; or without one a blank, the end of the tag, or the end of the input. */
  predicate Stops(stop: Byte, c: Byte) {
    if stop == 0 then c == 0 || BlankOrGt(c) else (stop == QUOT || stop == APOS) && c == stop
  }

  /** The text has nothing in it that would end it. */
  ghost predicate Unstopped(stop: Byte, w: seq<Byte>) {
    forall i :: 0 <= i < |w| ==> !Stops(stop, w[i])
  }

  /** The text stands at the position, with its end behind it. */
  ghost predicate StandsStopped(w: seq<Byte>, stop: Byte, text: seq<Byte>, p: nat) {
    Stands(w, text, p) && Stops(stop, Cur(text, p + |w|))
  }

  lemma NameEndStops(text: seq<Byte>, p: nat, end: nat)
    requires p <= end <= |text| && !NameChar(Cur(text, end))
    ensures NameEnd(text, p) <= end
    ensures forall i :: p <= i < NameEnd(text, p) ==> NameChar(text[i])
    decreases end - p
  {
    if NameChar(Cur(text, p)) {
      NameEndStops(text, p + 1, end);
    }
  }

  /** How many bytes of the text the parser takes at once: an ampersand with the name behind it, or one byte. */
  function Taken(w: seq<Byte>): (n: nat)
    requires w != []
    ensures 1 <= n <= |w|
  {
    if w[0] == AMP && |w| > 1 && NameStart(w[1]) then NameEnd(w, 2) else 1
  }

  lemma StoppedTail(w: seq<Byte>, stop: Byte, text: seq<Byte>, p: nat, n: nat)
    requires StandsStopped(w, stop, text, p) && n <= |w|
    ensures Stands(w[..n], text, p) && StandsStopped(w[n..], stop, text, p + n)
    ensures p + n <= |text| && Cur(text, p + n) == (if n < |w| then w[n] else Cur(text, p + |w|))
  {
  }

  /** The end of a name in the text is its end where the text stands. */
  lemma {:induction false} NameEndStands(w: seq<Byte>, i: nat, stop: Byte, text: seq<Byte>, p: nat)
    requires i <= |w| && StandsStopped(w, stop, text, p)
    ensures NameEnd(text, p + i) == p + NameEnd(w, i)
    decreases |w| - i
  {
    if i < |w| {
      assert text[p + i] == w[i];
      if NameChar(w[i]) {
        NameEndStands(w, i + 1, stop, text, p);
      }
    }
  }

  /** A byte other than an ampersand is taken as it is. */
  lemma ByteTaken(table: seq<Entity>, text: seq<Byte>, p: nat)
    requires p < |text| && 0 < text[p] < 0x80 && text[p] != AMP
    ensures PieceAt(table, text, p) == Piece([text[p]], p + 1)
  {
  }

  /** An ampersand is taken as it is, with the name behind it, if that is no entity's. */
  lemma AmpersandTaken(table: seq<Entity>, w: seq<Byte>, stop: Byte, text: seq<Byte>, p: nat)
    requires w != [] && w[0] == AMP && Verbatim(table, w) && StandsStopped(w, stop, text, p)
    ensures PieceAt(table, text, p) == Piece(w[..Taken(w)], p + Taken(w))
  {
    assert text[p] == w[0];
    assert |w| > 1 ==> text[p + 1] == w[1] && w[1] != '#' as int;
    if |w| > 1 && NameStart(w[1]) {
      var end := NameEnd(w, 2);
      NameEndStands(w, 2, stop, text, p);
      StoppedTail(w, stop, text, p, end);
      assert NameAt(text, p + 1) == NameTo(p + end);
      var name := text[p + 1..p + end];
      assert name == w[1..end];
      assert [AMP] + name == w[..end];
      if Cur(text, p + end) == SEMICOLON {
        assert end < |w| && w[end] == ';' as int && w[0] == '&' as int;
        assert forall k :: 0 <= k < |table| ==> w[0 + 1..end] != table[k].name;
      }
    } else {
      assert w[..1] == [AMP];
      assert NameAt(text, p + 1) == NoName;
    }
  }

  lemma VerbatimTail(table: seq<Entity>, w: seq<Byte>, n: nat)
    requires Verbatim(table, w) && n <= |w|
    ensures Verbatim(table, w[n..])
  {
    var v := w[n..];
    forall i, j, k | 0 <= i < j < |v| && v[i] == '&' as int && v[j] == ';' as int && 0 <= k < |table|
      ensures v[i + 1..j] != table[k].name
    {
      assert v[i + 1..j] == w[n + i + 1..n + j];
    }
  }

  lemma UnstoppedTail(stop: Byte, w: seq<Byte>, n: nat)
    requires Unstopped(stop, w) && n <= |w|
    ensures Unstopped(stop, w[n..])
  {
  }

  /** Such a text, and its end, at a position. */
  ghost predicate Own(table: seq<Entity>, w: seq<Byte>, stop: Byte, text: seq<Byte>, p: nat) {
    Verbatim(table, w) && Unstopped(stop, w) && StandsStopped(w, stop, text, p)
  }

  lemma OwnTail(table: seq<Entity>, w: seq<Byte>, stop: Byte, text: seq<Byte>, p: nat, n: nat)
    requires Own(table, w, stop, text, p) && n <= |w|
    ensures Own(table, w[n..], stop, text, p + n)
  {
    StoppedTail(w, stop, text, p, n);
    VerbatimTail(table, w, n);
    UnstoppedTail(stop, w, n);
  }

  /** The first byte of such a text, or the first name behind an ampersand, is taken as it is. */
  lemma OwnPiece(table: seq<Entity>, w: seq<Byte>, stop: Byte, text: seq<Byte>, p: nat)
    requires w != [] && Own(table, w, stop, text, p)
    ensures ReadAs(table, text, p, stop, w[..Taken(w)], p + Taken(w))
  {
    assert text[p] == w[0];
    if w[0] == AMP {
      AmpersandTaken(table, w, stop, text, p);
    } else {
      ByteTaken(table, text, p);
      assert w[..1] == [w[0]];
    }
  }

  ghost predicate MeansItself(table: seq<Entity>, w: seq<Byte>, stop: Byte, text: seq<Byte>, p: nat) {
    p + |w| <= |text| && ValueAt(table, text, p, stop) == Some((w, p + |w|))
  }

  lemma OwnMore(table: seq<Entity>, w: seq<Byte>, stop: Byte, text: seq<Byte>, p: nat)
    requires w != [] && Own(table, w, stop, text, p)
    requires MeansItself(table, w[Taken(w)..], stop, text, p + Taken(w))
    ensures MeansItself(table, w, stop, text, p)
  {
    var n := Taken(w);
    OwnPiece(table, w, stop, text, p);
    ValueCons(table, text, p, stop, w[..n], p + n, w[n..], p + |w|);
    assert w[..n] + w[n..] == w;
  }

  lemma OwnEnd(table: seq<Entity>, stop: Byte, text: seq<Byte>, p: nat)
    requires Own(table, [], stop, text, p)
    ensures MeansItself(table, [], stop, text, p)
  {
  }

  /** Such a text is its own value, up to what ends it. */
  lemma {:induction false} OwnValue(table: seq<Entity>, w: seq<Byte>, stop: Byte, text: seq<Byte>, p: nat)
    requires Own(table, w, stop, text, p)
    ensures MeansItself(table, w, stop, text, p)
    decreases |w|
  {
    if w == [] {
      OwnEnd(table, stop, text, p);
    } else {
      var n := Taken(w);
      OwnTail(table, w, stop, text, p, n);
      OwnValue(table, w[n..], stop, text, p + n);
      OwnMore(table, w, stop, text, p);
    }
  }

  /** In quotes, a text without the quote is its own value. */
  lemma OwnQuotedValue(table: seq<Entity>, w: seq<Byte>, quote: Byte, rest: seq<Byte>)
    requires Verbatim(table, w) && (quote == QUOT || quote == APOS) && quote !in w
    ensures ValueAt(table, w + [quote] + rest, 0, quote) == Some((w, |w|))
  {
    StandsInFront(w, quote, rest);
    OwnValue(table, w, quote, w + [quote] + rest, 0);
  }

  /** Without quotes, a text without blanks and without > is its own value up to the first of these, or up to the end of
      the input. */
  lemma OwnUnquotedValue(table: seq<Entity>, w: seq<Byte>, rest: seq<Byte>)
    requires Verbatim(table, w) && (forall i :: 0 <= i < |w| ==> !BlankOrGt(w[i]))
    requires rest == [] || BlankOrGt(rest[0])
    ensures ValueAt(table, w + rest, 0, 0) == Some((w, |w|))
  {
    OwnValue(table, w, 0, w + rest, 0);
  }

  // ---------------------------------------------------------------- hexadecimal references

  const LOWER := "0123456789abcdef"
  const UPPER := "0123456789ABCDEF"

  predicate HexDigit(b: Byte, v: nat) {
    v < 16 && (b == LOWER[v] as int || b == UPPER[v] as int)
  }

  /** The bytes are hexadecimal digits of the number, of either case, leading zeros allowed. */
  ghost predicate Hexadecimal(ds: seq<Byte>, n: nat) {
    ds != [] && HexDigit(ds[|ds| - 1], n % 16)
    && if |ds| == 1 then n < 16 else Hexadecimal(ds[..|ds| - 1], n / 16)
  }

  lemma DigitRead(b: Byte, v: nat)
    requires HexDigit(b, v)
    ensures DigitValue(b, true) == Some(v) && b != SEMICOLON
  {
    assert forall i :: 0 <= i < 10 ==> LOWER[i] as int == 48 + i && UPPER[i] as int == 48 + i;
    assert forall i :: 10 <= i < 16 ==> LOWER[i] as int == 87 + i && UPPER[i] as int == 55 + i;
  }

  lemma {:induction false} HexRead(ds: seq<Byte>, n: nat, text: seq<Byte>, p: nat)
    requires Hexadecimal(ds, n) && Stands(ds, text, p)
    ensures Digits(text, p, true, 0) == Digits(text, p + |ds|, true, n)
    decreases |ds|
  {
    var k := |ds| - 1;
    DigitRead(ds[k], n % 16);
    assert text[p + k] == ds[k];
    if k > 0 {
      HexRead(ds[..k], n / 16, text, p);
      assert n / 16 * 16 + n % 16 == n;
    }
  }

  /** A hexadecimal reference stands for its character; with the number of no character it stands for a NUL. */
  lemma HexReference(table: seq<Entity>, x: Byte, ds: seq<Byte>, c: nat, quote: Byte, rest: seq<Byte>)
    requires Hexadecimal(ds, c) && (x == 'x' as int || x == 'X' as int) && (quote == QUOT || quote == APOS)
    ensures
      var written := ['&' as int, '#' as int, x] + ds + [';' as int];
      ValueAt(table, written + [quote] + rest, 0, quote)
        == Some((if IsChar(c) then Encode(c) else [0], |written|))
  {
    var written: seq<Byte> := ['&' as int, '#' as int, x] + ds + [';' as int];
    var text := written + [quote] + rest;
    assert Stands(ds, text, 3);
    assert text[0] == AMP && text[1] == HASH && text[2] == x && text[3 + |ds|] == SEMICOLON;
    HexRead(ds, c, text, 3);
    assert Digits(text, 3 + |ds|, true, c) == (Some(c), |written|);
    assert text[|written|] == quote;
    assert ValueAt(table, text, |written|, quote) == Some(([], |written|));
    var out := if IsChar(c) then Encode(c) else [0];
    assert ReadAs(table, text, 0, quote, out, |written|);
    ValueCons(table, text, 0, quote, out, |written|, [], |written|);
    assert out + [] == out;
  }

  predicate DecimalDigits(ds: seq<Byte>) {
    forall i :: 0 <= i < |ds| ==> '0' as int <= ds[i] <= '9' as int
  }

  lemma {:induction false} BrokenDigits(ds: seq<Byte>, text: seq<Byte>, p: nat, val: nat)
    requires DecimalDigits(ds) && Stands(ds, text, p)
    requires !('0' as int <= Cur(text, p + |ds|) <= '9' as int) && Cur(text, p + |ds|) != ';' as int
    ensures Digits(text, p, false, val) == (None, p + |ds|)
    decreases |ds|
  {
    if ds != [] {
      assert text[p] == ds[0];
      assert Stands(ds[1..], text, p + 1);
      BrokenDigits(ds[1..], text, p + 1, val * 10 + (ds[0] - 48));
    }
  }

  /** A reference that breaks off among its digits leaves a NUL, and the value goes on behind them. */
  lemma BrokenReference(table: seq<Entity>, ds: seq<Byte>, text: seq<Byte>, p: nat, quote: Byte)
    requires DecimalDigits(ds) && Stands(['&' as int, '#' as int] + ds, text, p) && (quote == QUOT || quote == APOS)
    requires
      var c := Cur(text, p + 2 + |ds|);
      !('0' as int <= c <= '9' as int) && c != ';' as int && !(ds == [] && (c == 'x' as int || c == 'X' as int))
    ensures
      var value, rest := ValueAt(table, text, p, quote), ValueAt(table, text, p + 2 + |ds|, quote);
      if rest.None? then value.None? else value == Some(([0] + rest.value.0, rest.value.1))
  {
    var front: seq<Byte> := ['&' as int, '#' as int];
    StandsSplit(front, ds, text, p);
    assert text[p] == front[0] && text[p + 1] == front[1];
    assert ds != [] ==> text[p + 2] == ds[0];
    BrokenDigits(ds, text, p + 2, 0);
    assert CharRefAt(text, p) == (0, p + 2 + |ds|);
    assert PieceAt(table, text, p) == Piece([0], p + 2 + |ds|);
  }

  // ---------------------------------------------------------------- text that the encoder leaves alone

  /** ASCII without ampersand, tag brackets and the quote. */
  predicate Unescaped(b: Byte, quote: nat) {
    b < 0x80 && b != '&' as int && b != '<' as int && b != '>' as int && b != quote
  }

  lemma UnescapedKept(table: seq<Entity>, b: Byte, quote: nat)
    requires Unescaped(b, quote)
    ensures Escaped(table, b, quote) == [b]
  {
  }

  /** Such text is copied, byte by byte. */
  lemma {:induction false} EncoderKeeps(table: seq<Entity>, s: seq<Byte>, at: nat, room: nat, quote: nat)
    requires at <= |s| && |s| - at <= room && forall i :: at <= i < |s| ==> Unescaped(s[i], quote)
    ensures Run(Escaper(table, quote), s, at, room) == Outcome(0, s[at..], |s|)
    decreases |s| - at
  {
    if at < |s| {
      UnescapedKept(table, s[at], quote);
      assert CharAt(s, at) == Char(s[at], 1);
      EncoderKeeps(table, s, at + 1, room - 1, quote);
      assert [s[at]] + s[at + 1..] == s[at..];
    }
  }

  /** Any other character is written as a reference: by name where the table has the character, else by its number. */
  lemma EncoderRefers(table: seq<Entity>, c: nat, quote: nat)
    requires Sorted(table) && (c >= 0x80 || !Unescaped(c, quote))
    ensures forall i :: 0 <= i < |table| && table[i].value == c ==>
      Escaped(table, c, quote) == ['&' as int] + table[i].name + [';' as int]
    ensures (forall i :: 0 <= i < |table| ==> table[i].value != c) ==>
      Escaped(table, c, quote) == ['&' as int, '#' as int] + Decimal(c) + [';' as int]
  {
    ValueFound(table, c, 0);
    assert [AMP] + ([HASH] + Decimal(c)) == [AMP, HASH] + Decimal(c);
  }

  // ---------------------------------------------------------------- the parser on such values

  /** A quoted value as the parser reads it. */
  method ParseQuoted(table: seq<Entity>, w: seq<Byte>, quote: Byte, rest: seq<Byte>)
      returns (value: Option<seq<Byte>>, at: nat)
    requires Verbatim(table, w) && (quote == QUOT || quote == APOS) && quote !in w
    ensures value == Some(w) && at == |w|
  {
    var input := new Input(w + [quote] + rest);
    OwnQuotedValue(table, w, quote, rest);
    value := input.ParseHTMLAttribute(table, quote);
    at := input.pos;
  }

  /** A value without quotes. */
  method ParseUnquoted(table: seq<Entity>, w: seq<Byte>, rest: seq<Byte>)
      returns (value: Option<seq<Byte>>, at: nat)
    requires Verbatim(table, w) && (forall i :: 0 <= i < |w| ==> !BlankOrGt(w[i]))
    requires rest == [] || BlankOrGt(rest[0])
    ensures value == Some(w) && at == |w|
  {
    var input := new Input(w + rest);
    OwnUnquotedValue(table, w, rest);
    value := input.ParseHTMLAttribute(table, 0);
    at := input.pos;
  }
}

/** Attribute values survive being encoded and parsed again. */
module HtmlRoundTrip {
  import opened XmlString
  import opened Utf8
  import opened HtmlEntities
  import opened HtmlAttribute

  const QUOT: Byte := 34
  const APOS: Byte := 39

  /** What the round trip needs of the entity table: unique names, and names that the parser reads as such. */
  ghost predicate TableOk(table: seq<Entity>) {
    && (forall i, j :: 0 <= i < j < |table| ==> table[i].name != table[j].name)
    && forall i :: 0 <= i < |table| ==> NameOk(table[i].name)
  }

  predicate NameOk(name: seq<Byte>) {
    name != [] && NameStart(name[0]) && forall i :: 0 <= i < |name| ==> NameChar(name[i])
  }

  /** The characters of the text: no NUL, and valid characters beyond ASCII. */
  predicate CharOk(c: nat) {
    0 < c < 0x11_0000 && (c >= 0x80 ==> IsChar(c))
  }

  lemma StandsSplit(a: seq<Byte>, b: seq<Byte>, text: seq<Byte>, p: nat)
    requires Stands(a + b, text, p)
    ensures Stands(a, text, p) && Stands(b, text, p + |a|)
  {
    forall i | 0 <= i < |a|
      ensures text[p + i] == a[i]
    {
      assert (a + b)[i] == a[i];
    }
    forall i | 0 <= i < |b|
      ensures text[p + |a| + i] == b[i]
    {
      assert (a + b)[|a| + i] == b[i];
    }
  }

  // ---------------------------------------------------------------- numbers

  /** Reading a printed number gives it back. */
  lemma {:induction false} DecimalRead(n: nat, text: seq<Byte>, p: nat)
    requires Stands(Decimal(n), text, p)
    ensures Digits(text, p, false, 0) == Digits(text, p + |Decimal(n)|, false, n)
    ensures DigitValue(Cur(text, p), false).Some?
    decreases n
  {
    var d := Decimal(n);
    if n < 10 {
      assert text[p] == d[0];
    } else {
      StandsSplit(Decimal(n / 10), [48 + n % 10], text, p);
      DecimalRead(n / 10, text, p);
      assert text[p + |Decimal(n / 10)|] == [48 + n % 10][0];
      LastDigit(n, text, p + |Decimal(n / 10)|);
    }
  }

  lemma LastDigit(n: nat, text: seq<Byte>, p: nat)
    requires p < |text| && text[p] == 48 + n % 10
    ensures Digits(text, p, false, n / 10) == Digits(text, p + 1, false, n)
  {
    assert n / 10 * 10 + n % 10 == n;
  }

  /** A printed number, its hash and its semicolon are read as that character reference. */
  lemma NumberRead(c: nat, text: seq<Byte>, p: nat)
    requires Stands([AMP] + ([HASH] + Decimal(c)) + [SEMICOLON], text, p) && IsChar(c)
    ensures Cur(text, p) == AMP && Cur(text, p + 1) == HASH
    ensures CharRefAt(text, p) == (c, p + |Decimal(c)| + 3)
  {
    var d := Decimal(c);
    StandsSplit([AMP] + ([HASH] + d), [SEMICOLON], text, p);
    StandsSplit([AMP], [HASH] + d, text, p);
    StandsSplit([HASH], d, text, p + 1);
    assert text[p] == [AMP][0] && text[p + 1] == [HASH][0];
    assert text[p + 2 + |d|] == [SEMICOLON][0];
    DecimalRead(c, text, p + 2);
  }

  // ---------------------------------------------------------------- names

  lemma {:induction false} NameReadTo(text: seq<Byte>, p: nat, end: nat)
    requires p <= end <= |text| && !NameChar(Cur(text, end))
    requires forall i :: p <= i < end ==> NameChar(text[i])
    ensures NameEnd(text, p) == end
    decreases end - p
  {
    if p < end {
      NameReadTo(text, p + 1, end);
    }
  }

  /** An entity name between an ampersand and a semicolon is read as that name. */
  lemma NameRead(name: seq<Byte>, text: seq<Byte>, p: nat)
    requires Stands([AMP] + name + [SEMICOLON], text, p) && NameOk(name)
    ensures Cur(text, p) == AMP && Cur(text, p + 1) == name[0] && Cur(text, p + 1 + |name|) == SEMICOLON
    ensures NameAt(text, p + 1) == NameTo(p + 1 + |name|)
    ensures text[p + 1..p + 1 + |name|] == name
  {
    StandsSplit([AMP] + name, [SEMICOLON], text, p);
    StandsSplit([AMP], name, text, p);
    assert text[p] == [AMP][0] && text[p + 1 + |name|] == [SEMICOLON][0];
    assert text[p + 1] == name[0];
    forall i | p + 2 <= i < p + 1 + |name|
      ensures NameChar(text[i])
    {
      assert text[i] == name[i - p - 1];
    }
    NameReadTo(text, p + 2, p + 1 + |name|);
  }

  /** Looking up the name of a value's entry finds that entry. */
  lemma NameFindsValue(table: seq<Entity>, c: nat)
    requires TableOk(table) && ValueFrom(table, c, 0).Some?
    ensures NameFrom(table, table[ValueFrom(table, c, 0).value].name, 0) == ValueFrom(table, c, 0)
  {
    var i := ValueFrom(table, c, 0).value;
    assert NameFrom(table, table[i].name, 0).Some?;
  }

  // ---------------------------------------------------------------- one character

  /** The value goes on at the position, and the piece there adds these bytes. */
  ghost predicate ReadAs(table: seq<Entity>, text: seq<Byte>, p: nat, stop: Byte, out: seq<Byte>, next: nat) {
    !Ends(Cur(text, p), stop) && PieceAt(table, text, p) == Piece(out, next)
  }

  /** The parser reads what the encoder wrote for a character as that character. */
  lemma EscapedRead(table: seq<Entity>, c: nat, quote: Byte, text: seq<Byte>, p: nat)
    requires TableOk(table) && CharOk(c) && (quote == QUOT || quote == APOS)
    requires Stands(Escaped(table, c, quote), text, p)
    ensures ReadAs(table, text, p, quote, Encode(c), p + |Escaped(table, c, quote)|)
  {
    var e := Escaped(table, c, quote);
    assert text[p] == e[0];
    if !Plain(c, quote) {
      var i := ValueFrom(table, c, 0);
      if i.Some? {
        assert NameOk(table[i.value].name);
        NameRead(table[i.value].name, text, p);
        NameFindsValue(table, c);
      } else {
        NumberRead(c, text, p);
      }
    }
  }

  /** Whatever the one writer writes for a character is read as what the other writes for it. */
  ghost predicate Readable(table: seq<Entity>, enc: Writer, raw: Writer, quote: Byte) {
    forall c: nat, text: seq<Byte>, p: nat :: CharOk(c) && Stands(enc(c), text, p) ==>
      ReadAs(table, text, p, quote, raw(c), p + |enc(c)|)
  }

  lemma EscaperReadable(table: seq<Entity>, quote: Byte)
    requires TableOk(table) && (quote == QUOT || quote == APOS)
    ensures Readable(table, Escaper(table, quote), Encode, quote)
  {
    var enc := Escaper(table, quote);
    forall c: nat, text: seq<Byte>, p: nat | CharOk(c) && Stands(enc(c), text, p)
      ensures ReadAs(table, text, p, quote, Encode(c), p + |enc(c)|)
    {
      EscapedRead(table, c, quote, text, p);
    }
  }

  // ---------------------------------------------------------------- whole values

  lemma ValueCons(
      table: seq<Entity>, text: seq<Byte>, p: nat, stop: Byte, out: seq<Byte>, next: nat, rest: seq<Byte>, end: nat)
    requires p <= |text| && ReadAs(table, text, p, stop, out, next)
    requires ValueAt(table, text, next, stop) == Some((rest, end))
    ensures ValueAt(table, text, p, stop) == Some((out + rest, end))
  {
  }

  /** The parser reads what a readable writer wrote for a text as that text, up to the quote. */
  lemma {:induction false} WrittenRead(
      table: seq<Entity>, enc: Writer, raw: Writer, cs: seq<nat>, quote: Byte, text: seq<Byte>, p: nat)
    requires Readable(table, enc, raw, quote) && forall i :: 0 <= i < |cs| ==> CharOk(cs[i])
    requires Stands(WrittenAll(enc, cs), text, p) && Cur(text, p + |WrittenAll(enc, cs)|) == quote
    ensures ValueAt(table, text, p, quote) == Some((WrittenAll(raw, cs), p + |WrittenAll(enc, cs)|))
    decreases |cs|
  {
    if cs != [] {
      var e, rest := enc(cs[0]), WrittenAll(enc, cs[1..]);
      StandsSplit(e, rest, text, p);
      WrittenRead(table, enc, raw, cs[1..], quote, text, p + |e|);
      ValueCons(table, text, p, quote, raw(cs[0]), p + |e|, WrittenAll(raw, cs[1..]), p + |e| + |rest|);
    }
  }

  /** The bytes of a text are read back as its characters. */
  lemma {:induction false} CharsOfText(cs: seq<nat>, s: seq<Byte>, at: nat)
    requires forall i :: 0 <= i < |cs| ==> CharOk(cs[i])
    requires Stands(EncodeAll(cs), s, at) && at + |EncodeAll(cs)| == |s|
    ensures Chars(s, at, |s|) == Some(cs)
    decreases |cs|
  {
    if cs != [] {
      StandsSplit(Encode(cs[0]), EncodeAll(cs[1..]), s, at);
      CharAtEncode(cs[0], s, at);
      CharsOfText(cs[1..], s, at + |Encode(cs[0])|);
      assert cs == [cs[0]] + cs[1..];
    }
  }

  /** All of a text is encoded, however the output is cut into buffers. */
  lemma TextIsEncoded(enc: Writer, cs: seq<nat>, rooms: seq<nat>)
    requires forall i :: 0 <= i < |cs| ==> CharOk(cs[i])
    requires |rooms| > |EncodeAll(cs)| && forall i :: 0 <= i < |rooms| ==> Fits(enc, rooms[i])
    ensures Resumed(enc, EncodeAll(cs), 0, rooms) == Outcome(0, WrittenAll(enc, cs), |EncodeAll(cs)|)
  {
    var s := EncodeAll(cs);
    CharsOfText(cs, s, 0);
    WholeEncodes(enc, s, 0);
    RestartIsWhole(enc, s, 0, rooms);
  }

  /** Encoding a text and parsing the result, up to a quote behind it, gives the text back; the encoder uses all of
      the text, however its output is cut into buffers. */
  lemma AttributeRoundTrip(table: seq<Entity>, cs: seq<nat>, quote: Byte, behind: seq<Byte>, rooms: seq<nat>)
    requires TableOk(table) && (quote == QUOT || quote == APOS) && forall i :: 0 <= i < |cs| ==> CharOk(cs[i])
    requires |rooms| > |EncodeAll(cs)|
    requires forall i :: 0 <= i < |rooms| ==> Fits(Escaper(table, quote), rooms[i])
    ensures
      var s := EncodeAll(cs);
      var encoded := Resumed(Escaper(table, quote), s, 0, rooms);
      && encoded.ret == 0 && encoded.next == |s|
      && ValueAt(table, encoded.out + [quote] + behind, 0, quote) == Some((s, |encoded.out|))
  {
    TextIsEncoded(Escaper(table, quote), cs, rooms);
    ValueOfWritten(table, cs, quote, behind);
  }

  /** What the encoder wrote for a text, with the quote behind it, is parsed as the text. */
  lemma ValueOfWritten(table: seq<Entity>, cs: seq<nat>, quote: Byte, behind: seq<Byte>)
    requires TableOk(table) && (quote == QUOT || quote == APOS) && forall i :: 0 <= i < |cs| ==> CharOk(cs[i])
    ensures
      var written := WrittenAll(Escaper(table, quote), cs);
      ValueAt(table, written + [quote] + behind, 0, quote) == Some((EncodeAll(cs), |written|))
  {
    var enc := Escaper(table, quote);
    EscaperReadable(table, quote);
    StandsInFront(WrittenAll(enc, cs), quote, behind);
    WrittenRead(table, enc, Encode, cs, quote, WrittenAll(enc, cs) + [quote] + behind, 0);
  }

  lemma StandsInFront(a: seq<Byte>, c: Byte, b: seq<Byte>)
    ensures Stands(a, a + [c] + b, 0) && Cur(a + [c] + b, |a|) == c
  {
  }

  /** One call of htmlEncodeEntities for each buffer size, each from where the one before stopped. */
  method EncodeResumed(table: seq<Entity>, input: seq<Byte>, quote: nat, rooms: seq<nat>)
      returns (ret: int, out: seq<Byte>, next: nat)
    requires rooms != []
    ensures Outcome(ret, out, next) == Resumed(Escaper(table, quote), input, 0, rooms)
  {
    ret, out, next := 0, [], 0;
    ghost var all := Resumed(Escaper(table, quote), input, 0, rooms);
    assert rooms[0..] == rooms && [] + all.out == all.out;
    for i := 0 to |rooms|
      invariant next <= |input|
      invariant
        if i < |rooms|
        then
          var rest := Resumed(Escaper(table, quote), input, next, rooms[i..]);
          all == rest.(out := out + rest.out)
        else all == Outcome(ret, out, next)
    {
      ghost var done, at := out, next;
      var buffer := new Byte[rooms[i]];
      var written;
      ret, written, next := EncodeEntities(table, buffer, rooms[i], input, next, quote);
      ResumedStep(Escaper(table, quote), input, at, rooms[i..], done);
      assert i + 1 < |rooms| ==> rooms[i..][1..] == rooms[i + 1..];
      out := out + buffer[..written];
    }
  }

  lemma ResumedStep(enc: Writer, s: seq<Byte>, at: nat, rooms: seq<nat>, done: seq<Byte>)
    requires at <= |s| && rooms != []
    ensures
      var r, all := Run(enc, s, at, rooms[0]), Resumed(enc, s, at, rooms);
      if |rooms| == 1 then all == r
      else
        var rest := Resumed(enc, s, r.next, rooms[1..]);
        all.(out := done + all.out) == rest.(out := done + r.out + rest.out)
  {
    if |rooms| > 1 {
      var r := Run(enc, s, at, rooms[0]);
      var rest := Resumed(enc, s, r.next, rooms[1..]);
      assert done + (r.out + rest.out) == done + r.out + rest.out;
    }
  }

  /** The encoder and then the parser, as they run: the value is the text that went in, and the cursor stands at the
      quote. */
  method EncodeAndParse(table: seq<Entity>, cs: seq<nat>, quote: Byte, behind: seq<Byte>, rooms: seq<nat>)
      returns (value: Option<seq<Byte>>, at: nat, encoded: seq<Byte>)
    requires TableOk(table) && (quote == QUOT || quote == APOS) && forall i :: 0 <= i < |cs| ==> CharOk(cs[i])
    requires |rooms| > |EncodeAll(cs)|
    requires forall i :: 0 <= i < |rooms| ==> Fits(Escaper(table, quote), rooms[i])
    ensures value == Some(EncodeAll(cs)) && at == |encoded|
  {
    var ret, next;
    ret, encoded, next := EncodeResumed(table, EncodeAll(cs), quote, rooms);
    AttributeRoundTrip(table, cs, quote, behind, rooms);
    var input := new Input(encoded + [quote] + behind);
    value := input.ParseHTMLAttribute(table, quote);
    at := input.pos;
  }

  /** Bytes that can stand in an attribute value between such quotes. */
  ghost predicate Safe(out: seq<Byte>, quote: Byte) {
    forall i :: 0 <= i < |out| ==> 0 < out[i] < 0x80 && out[i] != quote && out[i] != LT && out[i] != GT
  }

  lemma {:induction false} DecimalIsDigits(n: nat)
    ensures forall i :: 0 <= i < |Decimal(n)| ==> 48 <= Decimal(n)[i] <= 57
    decreases n
  {
    if n >= 10 {
      DecimalIsDigits(n / 10);
    }
  }

  lemma EscapedIsSafe(table: seq<Entity>, c: nat, quote: Byte)
    requires TableOk(table) && (quote == QUOT || quote == APOS) && CharOk(c)
    ensures Safe(Escaped(table, c, quote), quote)
  {
    DecimalIsDigits(c);
    var i := ValueFrom(table, c, 0);
    if i.Some? {
      assert NameOk(table[i.value].name);
    }
  }

  /** The encoder's output is ASCII, and free of NUL, of the quote and of tag brackets. */
  lemma {:induction false} WrittenIsSafe(table: seq<Entity>, cs: seq<nat>, quote: Byte)
    requires TableOk(table) && (quote == QUOT || quote == APOS) && forall i :: 0 <= i < |cs| ==> CharOk(cs[i])
    ensures Safe(WrittenAll(Escaper(table, quote), cs), quote)
    decreases |cs|
  {
    if cs != [] {
      EscapedIsSafe(table, cs[0], quote);
      WrittenIsSafe(table, cs[1..], quote);
      assert WrittenAll(Escaper(table, quote), cs)
        == Escaped(table, cs[0], quote) + WrittenAll(Escaper(table, quote), cs[1..]);
    }
  }
}

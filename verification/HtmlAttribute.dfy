/** Parsing attribute values of HTML: character and entity references are replaced by what they stand for. */
module HtmlAttribute {
  import opened XmlString
  import opened Memory
  import opened Utf8
  import opened HtmlEntities

  const HTML_PARSER_BUFFER_SIZE := 100

  /** The byte at a position; the input ends in a zero byte. */
  function Cur(text: seq<Byte>, p: nat): Byte {
    if p < |text| then text[p] else 0
  }

  predicate Blank(c: Byte) {
    c == 0x20 || 9 <= c <= 10 || c == 13
  }

  // ---------------------------------------------------------------- what the input says

  function DigitValue(c: Byte, hex: bool): Option<nat> {
    if 48 <= c <= 57 then Some(c - 48)
    else if hex && 97 <= c <= 102 then Some(c - 97 + 10)
    else if hex && 65 <= c <= 70 then Some(c - 65 + 10)
    else None
  }

  /** Digits up to a semicolon, after those that made up the value: the number, if all of it is digits, and where
      the reading stopped. */
  function Digits(text: seq<Byte>, p: nat, hex: bool, val: nat): (r: (Option<nat>, nat))
    requires p <= |text|
    ensures p <= r.1 <= |text|
    decreases |text| - p
  {
    var c := Cur(text, p);
    if c == SEMICOLON then (Some(val), p + 1)
    else
      var d := DigitValue(c, hex);
      if d.None? then (None, p)
      else Digits(text, p + 1, hex, val * (if hex then 16 else 10) + d.value)
  }

  /** The value of the character reference at a position, zero if it has none, and the position after it. */
  function CharRefAt(text: seq<Byte>, p: nat): (r: (nat, nat))
    requires Cur(text, p) == AMP && Cur(text, p + 1) == HASH
    ensures p + 2 <= r.1 <= |text|
  {
    var hex := Cur(text, p + 2) == 120 || Cur(text, p + 2) == 88;
    var r := Digits(text, if hex then p + 3 else p + 2, hex, 0);
    (if r.0.Some? && IsChar(r.0.value) then r.0.value else 0, r.1)
  }

  predicate NameStart(c: Byte) {
    97 <= c <= 122 || 65 <= c <= 90 || c == 95 || c == 58
  }

  predicate NameChar(c: Byte) {
    NameStart(c) || 48 <= c <= 57 || c == 45 || c == 46
  }

  function NameEnd(text: seq<Byte>, p: nat): (r: nat)
    requires p <= |text|
    ensures p <= r <= |text| && !NameChar(Cur(text, r))
    decreases |text| - p
  {
    if NameChar(Cur(text, p)) then NameEnd(text, p + 1) else p
  }

  /** A name at a position. Names with other than ASCII characters are beyond the model. */
  datatype NameResult = NoName | NameTo(end: nat) | BeyondName

  function NameAt(text: seq<Byte>, p: nat): (r: NameResult)
    ensures r.NameTo? ==> p < r.end <= |text|
  {
    var c := Cur(text, p);
    if NameStart(c) then
      var end := NameEnd(text, p + 1);
      if Cur(text, end) < 0x80 then NameTo(end) else BeyondName
    else if c < 0x80 then NoName
    else BeyondName
  }

  /** The raw character at a position, as the parser reads it. */
  function RawAt(text: seq<Byte>, p: nat): (r: Decoded)
    requires p < |text|
    ensures r.Char? ==> 1 <= r.len && p + r.len <= |text|
  {
    var c: nat := text[p];
    var x: nat, y: nat, z: nat := Cur(text, p + 1), Cur(text, p + 2), Cur(text, p + 3);
    if c < 0x80 then Char(c, 1)
    else if c == 0xC0 || !Trailing(x) then Malformed
    else if c < 0xE0 then Char(c % 0x20 * 0x40 + x % 0x40, 2)
    else if !Trailing(y) then Malformed
    else if c < 0xF0 then Char((c % 0x10 * 0x40 + x % 0x40) * 0x40 + y % 0x40, 3)
    else if c >= 0xF8 || !Trailing(z) then Malformed
    else Char(((c % 8 * 0x40 + x % 0x40) * 0x40 + y % 0x40) * 0x40 + z % 0x40, 4)
  }

  /** What the input at a position adds to the value, and where it goes on; None where the model does not reach. */
  datatype Piece = Piece(out: seq<Byte>, next: nat) | Beyond

  function PieceAt(table: seq<Entity>, text: seq<Byte>, p: nat): (r: Piece)
    requires Cur(text, p) != 0
    ensures r.Piece? ==> p < r.next <= |text|
  {
    if Cur(text, p) != AMP then
      match RawAt(text, p)
      case Char(c, len) => Piece(Encode(c), p + len)
      case _ => Beyond
    else if Cur(text, p + 1) == HASH then
      var r := CharRefAt(text, p);
      Piece(Encode(r.0), r.1)
    else match NameAt(text, p + 1)
      case NoName => Piece([AMP], p + 1)
      case BeyondName => Beyond
      case NameTo(end) =>
        var name := text[p + 1..end];
        var ent := if Cur(text, end) == SEMICOLON then NameFrom(table, name, 0) else None;
        if ent.None? then Piece([AMP] + name, end) else Piece(Encode(table[ent.value].value), end + 1)
  }

  /** Does the value end here? Without a quote it also ends at a blank or at the end of the tag. */
  predicate Ends(c: Byte, stop: Byte) {
    c == 0 || c == stop || (stop == 0 && (c == GT || Blank(c)))
  }

  /** The attribute value from a position on, and where it ends. */
  function ValueAt(table: seq<Entity>, text: seq<Byte>, p: nat, stop: Byte): (r: Option<(seq<Byte>, nat)>)
    requires p <= |text|
    decreases |text| - p
  {
    if Ends(Cur(text, p), stop) then Some(([], p))
    else match PieceAt(table, text, p)
      case Beyond => None
      case Piece(out, next) =>
        var rest := ValueAt(table, text, next, stop);
        if rest.None? then None else Some((out + rest.value.0, rest.value.1))
  }

  // ---------------------------------------------------------------- the parser

  /** The growing buffer of the value. */
  class Buffer {
    var data: array<Byte>
    var used: nat

    /** The invariant between two pieces. */
    ghost predicate Valid()
      reads this
    {
      data.Length >= HTML_PARSER_BUFFER_SIZE && used <= data.Length - 96
    }

    ghost function Value(): seq<Byte>
      requires Valid()
      reads this, data
    {
      data[..used]
    }

    constructor ()
      ensures Valid() && fresh(data) && Value() == []
    {
      data := new Byte[HTML_PARSER_BUFFER_SIZE];
      used := 0;
    }

    /** The check that guards most writes: keeps a hundred places free. */
    method Reserve()
      requires data.Length >= HTML_PARSER_BUFFER_SIZE && used <= data.Length
      modifies this
      ensures (data == old(data) || fresh(data)) && data.Length >= HTML_PARSER_BUFFER_SIZE
      ensures used == old(used) && used <= data.Length - 100
      ensures data[..used] == old(data[..used])
    {
      if used > data.Length - 100 {
        ghost var before := data[..used];
        var grown := Realloc(data, data.Length * 2);
        assert grown[..used] == grown[..data.Length][..used] == before;
        data := grown;
      }
    }

    /** Writes a code point's leading byte, then its trailing bytes from the highest bits down. */
    method PutChar(c: nat)
      requires used + 4 <= data.Length
      modifies this`used, data
      ensures used == old(used) + |Encode(c)|
      ensures data[..used] == old(data[..used]) + Encode(c)
    {
      var lead: Byte, n: nat;
      if c < 0x80 {
        lead, n := c, 0;
      } else if c < 0x800 {
        lead, n := 0xC0 + c / 0x40 % 0x20, 1;
      } else if c < 0x1_0000 {
        lead, n := 0xE0 + c / 0x1000 % 0x10, 2;
      } else {
        lead, n := 0xF0 + c / 0x4_0000 % 8, 3;
      }
      ghost var e := Encode(c);
      assert |e| == n + 1 && e[0] == lead;
      data[used] := lead;
      used := used + 1;
      while n > 0
        invariant 0 <= n < |e| && used + n == old(used) + |e| <= data.Length
        invariant data[..used] == old(data[..used]) + e[..|e| - n]
        decreases n
      {
        n := n - 1;
        data[used] := 0x80 + Shifted(c, n) % 0x40;
        assert data[used] == e[|e| - n - 1];
        used := used + 1;
      }
      assert e[..|e|] == e;
    }

    method PutByte(b: Byte)
      requires used < data.Length
      modifies this`used, data
      ensures used == old(used) + 1 && data[..used] == old(data[..used]) + [b]
    {
      data[used] := b;
      used := used + 1;
    }
  }

  /** The code point without its lowest n six-bit groups. */
  function Shifted(c: nat, n: nat): nat
    requires n <= 2
  {
    if n == 0 then c else if n == 1 then c / 0x40 else c / 0x1000
  }

  /** The parser's input and its cursor. */
  class Input {
    const text: seq<Byte>
    var pos: nat

    ghost predicate Valid()
      reads this
    {
      pos <= |text|
    }

    constructor (text: seq<Byte>)
      ensures Valid() && this.text == text && pos == 0
    {
      this.text := text;
      pos := 0;
    }

    /** htmlParseCharRef. */
    method ParseCharRef() returns (r: nat)
      requires Valid() && Cur(text, pos) == AMP && Cur(text, pos + 1) == HASH
      modifies this
      ensures Valid() && (r, pos) == CharRefAt(text, old(pos))
    {
      var hex := Cur(text, pos + 2) == 120 || Cur(text, pos + 2) == 88;
      pos := if hex then pos + 3 else pos + 2;
      var val: nat := 0;
      while Cur(text, pos) != SEMICOLON
        invariant Valid()
        invariant Digits(text, pos, hex, val) == Digits(text, if hex then old(pos) + 3 else old(pos) + 2, hex, 0)
        decreases |text| - pos
      {
        var d := DigitValue(Cur(text, pos), hex);
        if d.None? {
          return 0;
        }
        val := val * (if hex then 16 else 10) + d.value;
        pos := pos + 1;
      }
      pos := pos + 1;
      r := if IsChar(val) then val else 0;
    }

    /** htmlParseName, as far as the name is ASCII; the position moves only past a name. */
    method ParseName() returns (r: NameResult)
      requires Valid()
      modifies this
      ensures Valid() && r == NameAt(text, old(pos))
      ensures pos == if r.NameTo? then r.end else old(pos)
    {
      var start := pos;
      if !NameStart(Cur(text, pos)) {
        return if Cur(text, pos) < 0x80 then NoName else BeyondName;
      }
      var p := pos + 1;
      while NameChar(Cur(text, p))
        invariant start < p <= |text| && NameEnd(text, p) == NameEnd(text, start + 1)
        decreases |text| - p
      {
        p := p + 1;
      }
      if Cur(text, p) >= 0x80 {
        return BeyondName;
      }
      pos := p;
      r := NameTo(p);
    }

    /** htmlParseEntityRef: the name, and the table entry if it is known and a semicolon follows, which is then
        skipped. */
    method ParseEntityRef(table: seq<Entity>) returns (name: NameResult, ent: Option<nat>)
      requires Valid() && Cur(text, pos) == AMP
      modifies this
      ensures Valid() && name == NameAt(text, old(pos) + 1)
      ensures ent == if name.NameTo? && Cur(text, name.end) == SEMICOLON
                     then NameFrom(table, text[old(pos) + 1..name.end], 0) else None
      ensures name.NameTo? ==> pos == if ent.Some? then name.end + 1 else name.end
      ensures !name.NameTo? ==> pos == old(pos) + 1
    {
      pos := pos + 1;
      var start := pos;
      ent := None;
      name := ParseName();
      if name.NameTo? && Cur(text, pos) == SEMICOLON {
        ent := EntityLookup(table, text[start..name.end]);
        if ent.Some? {
          pos := pos + 1;
        }
      }
    }

    /** One round of the loop of htmlParseHTMLAttribute. */
    method ParsePiece(table: seq<Entity>, buffer: Buffer) returns (ok: bool)
      requires Valid() && Cur(text, pos) != 0 && buffer.Valid()
      modifies this, buffer, buffer.data
      ensures Valid() && buffer.Valid() && (buffer.data == old(buffer.data) || fresh(buffer.data))
      ensures
        var piece := PieceAt(table, text, old(pos));
        && (ok <==> piece.Piece?)
        && (ok ==> pos == piece.next && buffer.Value() == old(buffer.Value()) + piece.out)
    {
      if Cur(text, pos) != AMP {
        buffer.Reserve();
        var ch := RawAt(text, pos);
        if !ch.Char? {
          return false;
        }
        buffer.PutChar(ch.c);
        pos := pos + ch.len;
        return true;
      }
      if Cur(text, pos + 1) == HASH {
        var c := ParseCharRef();
        buffer.PutChar(c);
        buffer.Reserve();
        return true;
      }
      var start := pos;
      var name, ent := ParseEntityRef(table);
      match name {
        case NoName =>
          buffer.PutByte(AMP);
          buffer.Reserve();
        case BeyondName =>
          return false;
        case NameTo(end) =>
          if ent.None? {
            PutName(start + 1, end, buffer);
          } else {
            buffer.Reserve();
            buffer.PutChar(table[ent.value].value);
          }
      }
      ok := true;
    }

    /** Copies an unknown entity's name behind an ampersand. */
    method PutName(start: nat, end: nat, buffer: Buffer)
      requires start < end <= |text| && buffer.Valid()
      modifies buffer, buffer.data
      ensures buffer.Valid() && (buffer.data == old(buffer.data) || fresh(buffer.data))
      ensures buffer.Value() == old(buffer.Value()) + ([AMP] + text[start..end])
    {
      ghost var before := buffer.Value();
      buffer.PutByte(AMP);
      for cur := start to end
        invariant buffer.data == old(buffer.data) || fresh(buffer.data)
        invariant buffer.data.Length >= HTML_PARSER_BUFFER_SIZE
        invariant buffer.used <= buffer.data.Length - (if cur == start then 95 else 96)
        invariant buffer.data[..buffer.used] == before + [AMP] + text[start..cur]
      {
        buffer.Reserve();
        buffer.PutByte(text[cur]);
        assert text[start..cur + 1] == text[start..cur] + [text[cur]];
      }
      assert before + ([AMP] + text[start..end]) == before + [AMP] + text[start..end];
    }

    /** htmlParseHTMLAttribute: the value from the cursor up to the stop, where the model reaches. */
    method ParseHTMLAttribute(table: seq<Entity>, stop: Byte) returns (r: Option<seq<Byte>>)
      requires Valid()
      modifies this
      ensures Valid()
      ensures
        var value := ValueAt(table, text, old(pos), stop);
        && (r.None? <==> value.None?)
        && (r.Some? ==> (r.value, pos) == value.value)
    {
      var buffer := new Buffer();
      ghost var all := ValueAt(table, text, pos, stop);
      PrefixedStart(all);
      while !Ends(Cur(text, pos), stop)
        invariant Valid() && buffer.Valid() && fresh(buffer) && fresh(buffer.data)
        invariant Prefixed(all, buffer.Value(), ValueAt(table, text, pos, stop))
        decreases |text| - pos
      {
        ghost var done, rest := buffer.Value(), ValueAt(table, text, pos, stop);
        ghost var piece := PieceAt(table, text, pos);
        var ok := ParsePiece(table, buffer);
        if !ok {
          return None;
        }
        PrefixedStep(all, done, rest, piece.out, ValueAt(table, text, pos, stop));
      }
      ghost var done := buffer.Value();
      assert done + [] == done;
      buffer.PutByte(0);
      assert buffer.data[..buffer.used - 1] == buffer.data[..buffer.used][..buffer.used - 1] == done;
      r := Some(buffer.data[..buffer.used - 1]);
    }
  }

  /** The value is what is done and the rest. */
  ghost predicate Prefixed(
      all: Option<(seq<Byte>, nat)>, done: seq<Byte>, rest: Option<(seq<Byte>, nat)>)
  {
    && (all.None? <==> rest.None?)
    && (all.Some? ==> all.value == (done + rest.value.0, rest.value.1))
  }

  lemma PrefixedStart(all: Option<(seq<Byte>, nat)>)
    ensures Prefixed(all, [], all)
  {
    if all.Some? {
      assert [] + all.value.0 == all.value.0;
    }
  }

  lemma PrefixedStep(
      all: Option<(seq<Byte>, nat)>, done: seq<Byte>, rest: Option<(seq<Byte>, nat)>, out: seq<Byte>,
      left: Option<(seq<Byte>, nat)>)
    requires Prefixed(all, done, rest) && Prefixed(rest, out, left)
    ensures Prefixed(all, done + out, left)
  {
    if left.Some? {
      assert done + (out + left.value.0) == done + out + left.value.0;
    }
  }
}

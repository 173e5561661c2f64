/** The HTML entity table and the encoder that replaces characters by entity references. */
module HtmlEntities {
  import opened XmlString
  import opened Memory
  import opened Utf8

  datatype Entity = Entity(value: nat, name: seq<Byte>)

  const AMP: Byte := 38
  const HASH: Byte := 35
  const SEMICOLON: Byte := 59
  const LT: Byte := 60
  const GT: Byte := 62

  // ---------------------------------------------------------------- the table

  /** The first entry with the value, looking no further than the first larger one. */
  function ValueFrom(table: seq<Entity>, value: nat, i: nat): (r: Option<nat>)
    requires i <= |table|
    ensures r.Some? ==> i <= r.value < |table| && table[r.value].value == value
    decreases |table| - i
  {
    if i == |table| || table[i].value > value then None
    else if table[i].value == value then Some(i)
    else ValueFrom(table, value, i + 1)
  }

  /** The first entry with the name. */
  function NameFrom(table: seq<Entity>, name: seq<Byte>, i: nat): (r: Option<nat>)
    requires i <= |table|
    ensures r.Some? ==> i <= r.value < |table| && table[r.value].name == name
    ensures r.None? ==> forall j :: i <= j < |table| ==> table[j].name != name
    ensures r.Some? ==> forall j :: i <= j < r.value ==> table[j].name != name
    decreases |table| - i
  {
    if i == |table| then None
    else if table[i].name == name then Some(i)
    else NameFrom(table, name, i + 1)
  }

  ghost predicate Sorted(table: seq<Entity>) {
    forall i, j :: 0 <= i < j < |table| ==> table[i].value < table[j].value
  }

  /** In a sorted table, stopping at the first larger value misses nothing. */
  lemma {:induction false} ValueFound(table: seq<Entity>, value: nat, i: nat)
    requires i <= |table| && Sorted(table)
    ensures ValueFrom(table, value, i).None? ==> forall j :: i <= j < |table| ==> table[j].value != value
    decreases |table| - i
  {
    if i < |table| {
      ValueFound(table, value, i + 1);
    }
  }

  /** htmlEntityValueLookup. */
  method EntityValueLookup(table: seq<Entity>, value: nat) returns (r: Option<nat>)
    ensures r == ValueFrom(table, value, 0)
  {
    var i := 0;
    while i < |table|
      invariant 0 <= i <= |table|
      invariant ValueFrom(table, value, 0) == ValueFrom(table, value, i)
    {
      if table[i].value >= value {
        if table[i].value > value {
          break;
        }
        return Some(i);
      }
      i := i + 1;
    }
    r := None;
  }

  /** htmlEntityLookup. */
  method EntityLookup(table: seq<Entity>, name: seq<Byte>) returns (r: Option<nat>)
    ensures r == NameFrom(table, name, 0)
  {
    for i := 0 to |table|
      invariant NameFrom(table, name, 0) == NameFrom(table, name, i)
    {
      if table[i].name == name {
        return Some(i);
      }
    }
    r := None;
  }

  // ---------------------------------------------------------------- one character

  function Decimal(n: nat): seq<Byte> {
    if n < 10 then [48 + n] else Decimal(n / 10) + [48 + n % 10]
  }

  /** Characters that are copied as they are. */
  predicate Plain(c: nat, quote: nat) {
    c < 0x80 && c != quote && c != AMP && c != LT && c != GT
  }

  /** The name or number in a character's reference. */
  function Reference(table: seq<Entity>, c: nat): seq<Byte> {
    var i := ValueFrom(table, c, 0);
    if i.Some? then table[i.value].name else [HASH] + Decimal(c)
  }

  function Escaped(table: seq<Entity>, c: nat, quote: nat): (r: seq<Byte>)
    ensures r != []
  {
    if Plain(c, quote) then [c] else [AMP] + Reference(table, c) + [SEMICOLON]
  }

  function Escaper(table: seq<Entity>, quote: nat): Writer {
    c => Escaped(table, c, quote)
  }

  // ---------------------------------------------------------------- the encoder

  /** What one call does: its result code, its output, and the position up to which it used the input. */
  datatype Outcome = Outcome(ret: int, out: seq<Byte>, next: nat)

  /** Encoding from a position on, with room for so many output bytes. */
  function Run(enc: Writer, s: seq<Byte>, at: nat, room: nat): (r: Outcome)
    requires at <= |s|
    ensures at <= r.next <= |s| && |r.out| <= room
    decreases |s| - at
  {
    if at == |s| then Outcome(0, [], at)
    else match CharAt(s, at)
      case Malformed => Outcome(-2, [], at)
      case Cut => Outcome(0, [], at)
      case Char(c, len) =>
        var e := enc(c);
        if |e| > room then Outcome(0, [], at)
        else
          var r := Run(enc, s, at + len, room - |e|);
          r.(out := e + r.out)
  }

  /** Reads the character at a position. */
  method ReadChar(input: seq<Byte>, at: nat) returns (r: Decoded)
    requires at < |input|
    ensures r == CharAt(input, at)
  {
    var d := input[at];
    var c: nat, trailing: nat := 0, 0;
    if d < 0x80 {
      c, trailing := d, 0;
    } else if d < 0xC0 {
      return Malformed;
    } else if d < 0xE0 {
      c, trailing := d % 0x20, 1;
    } else if d < 0xF0 {
      c, trailing := d % 0x10, 2;
    } else if d < 0xF8 {
      c, trailing := d % 8, 3;
    } else {
      return Malformed;
    }
    if |input| - (at + 1) < trailing {
      return Cut;
    }
    ghost var c0 := c;
    for i := 0 to trailing
      invariant Extend(c0, input, at + 1, i) == Some(c)
    {
      d := input[at + 1 + i];
      if !(0x80 <= d < 0xC0) {
        ExtendFails(c0, input, at + 1, i, trailing);
        return Malformed;
      }
      c := c * 0x40 + d % 0x40;
    }
    r := Char(c, 1 + trailing);
  }

  /** Writes a character, if there is room for it. */
  method WriteChar(table: seq<Entity>, out: array<Byte>, at: nat, end: nat, c: nat, quote: nat) returns (r: Option<nat>)
    requires at <= end <= out.Length
    modifies out
    ensures r.None? <==> |Escaped(table, c, quote)| > end - at
    ensures r.None? ==> out[..] == old(out[..])
    ensures r.Some? ==> r.value == at + |Escaped(table, c, quote)|
    ensures r.Some? ==> out[..r.value] == old(out[..at]) + Escaped(table, c, quote)
    ensures out[end..] == old(out[end..])
  {
    var e := [c];
    if c < 0x80 && c != quote && c != AMP && c != LT && c != GT {
      if at >= end {
        return None;
      }
    } else {
      var ent := EntityValueLookup(table, c);
      var cp := if ent.None? then [HASH] + Decimal(c) else table[ent.value].name;
      if at + 2 + |cp| > end {
        return None;
      }
      e := [AMP] + cp + [SEMICOLON];
    }
    ghost var before := out[..];
    Memcpy(out, at, e);
    var now := at + |e|;
    assert out[end..] == out[..][end..] == before[end..];
    r := Some(now);
  }

  /** The encoding `all` of the input is what is done up to a position and the encoding from there on. */
  ghost predicate Continues(
      all: Outcome, enc: Writer, input: seq<Byte>, at: nat, done: seq<Byte>, room: nat)
    requires at <= |input|
  {
    var rest := Run(enc, input, at, room);
    all == rest.(out := done + rest.out)
  }

  /** One more character done. */
  lemma ContinuesChar(
      all: Outcome, enc: Writer, input: seq<Byte>, at: nat, done: seq<Byte>, room: nat,
      ch: Decoded, next: nat, more: seq<Byte>, left: nat)
    requires at < |input| && Continues(all, enc, input, at, done, room)
    requires ch.Char? && CharAt(input, at) == ch && next == at + ch.len
    requires |enc(ch.c)| <= room && left == room - |enc(ch.c)|
    requires more == done + enc(ch.c)
    ensures Continues(all, enc, input, next, more, left)
  {
    var e := enc(ch.c);
    var r := Run(enc, input, next, left);
    assert done + (e + r.out) == more + r.out;
  }

  /** No more can be done. */
  lemma ContinuesNot(
      all: Outcome, enc: Writer, input: seq<Byte>, at: nat, done: seq<Byte>, room: nat)
    requires at <= |input| && Continues(all, enc, input, at, done, room)
    requires at < |input| && CharAt(input, at).Char? ==> |enc(CharAt(input, at).c)| > room
    ensures all == Outcome(if at < |input| && CharAt(input, at).Malformed? then -2 else 0, done, at)
  {
    assert done + [] == done;
  }

  /** One round of the encoder's loop; `more` is false when it has to stop. */
  method EncodeOne(
      table: seq<Entity>, out: array<Byte>, at: nat, end: nat, input: seq<Byte>, processed: nat, quote: nat,
      ghost enc: Writer, ghost all: Outcome) returns (more: bool, ret: int, now: nat, next: nat)
    requires processed < |input| && at <= end <= out.Length && enc == Escaper(table, quote)
    requires Continues(all, enc, input, processed, out[..at], end - at)
    modifies out
    ensures out[end..] == old(out[end..])
    ensures more ==> processed < next <= |input| && at <= now <= end
                     && Continues(all, enc, input, next, out[..now], end - now)
    ensures !more ==> now == at && all == Outcome(ret, out[..now], next)
  {
    ghost var done, room := out[..at], end - at;
    var ch := ReadChar(input, processed);
    if !ch.Char? {
      ContinuesNot(all, enc, input, processed, done, room);
      return false, if ch.Malformed? then -2 else 0, at, processed;
    }
    assert enc(ch.c) == Escaped(table, ch.c, quote);
    var written := WriteChar(table, out, at, end, ch.c, quote);
    if written.None? {
      ContinuesNot(all, enc, input, processed, done, room);
      assert out[..][..at] == out[..at];
      return false, 0, at, processed;
    }
    now, next := written.value, processed + ch.len;
    ContinuesChar(all, enc, input, processed, done, room, ch, next, out[..now], end - now);
    more, ret := true, 0;
  }

  /** htmlEncodeEntities from a position of the input on, to the first `outlen` places of `out`. */
  method EncodeEntities(table: seq<Entity>, out: array<Byte>, outlen: nat, input: seq<Byte>, start: nat, quote: nat)
      returns (ret: int, written: nat, processed: nat)
    requires outlen <= out.Length && start <= |input|
    modifies out
    ensures written <= outlen && out[outlen..] == old(out[outlen..])
    ensures Run(Escaper(table, quote), input, start, outlen) == Outcome(ret, out[..written], processed)
  {
    ghost var enc := Escaper(table, quote);
    ghost var all := Run(enc, input, start, outlen);
    written, processed := 0, start;
    assert [] + all.out == all.out;
    while processed < |input|
      invariant start <= processed <= |input| && written <= outlen
      invariant out[outlen..] == old(out[outlen..])
      invariant Continues(all, enc, input, processed, out[..written], outlen - written)
      decreases |input| - processed
    {
      var more;
      more, ret, written, processed := EncodeOne(table, out, written, outlen, input, processed, quote, enc, all);
      if !more {
        return;
      }
    }
    ContinuesNot(all, enc, input, processed, out[..written], outlen - written);
    ret := 0;
  }

  // ---------------------------------------------------------------- what the encoder promises

  /** The characters between two positions, if they are whole characters throughout. */
  function Chars(s: seq<Byte>, at: nat, end: nat): Option<seq<nat>>
    requires at <= end <= |s|
    decreases end - at
  {
    if at == end then Some([])
    else match CharAt(s, at)
      case Char(c, len) =>
        if at + len > end then None
        else
          var rest := Chars(s, at + len, end);
          if rest.None? then None else Some([c] + rest.value)
      case _ => None
  }

  lemma WrittenCons(enc: Writer, c: nat, cs: seq<nat>)
    ensures WrittenAll(enc, [c] + cs) == enc(c) + WrittenAll(enc, cs)
  {
    assert ([c] + cs)[1..] == cs;
  }

  /** What a call reports as used is whole characters, and its output is exactly their encoding. */
  lemma {:induction false} UsedIsEncoded(enc: Writer, s: seq<Byte>, at: nat, room: nat)
    requires at <= |s|
    ensures
      var r := Run(enc, s, at, room);
      var cs := Chars(s, at, r.next);
      cs.Some? && r.out == WrittenAll(enc, cs.value)
    decreases |s| - at
  {
    var r := Run(enc, s, at, room);
    if r.next > at {
      var ch := CharAt(s, at);
      var e := enc(ch.c);
      UsedIsEncoded(enc, s, at + ch.len, room - |e|);
      WrittenCons(enc, ch.c, Chars(s, at + ch.len, r.next).value);
    }
  }

  /** Why a call stops: -2 exactly at bytes that begin no character; otherwise the input is used up, its last
      character is incomplete, or the next one does not fit. */
  lemma {:induction false} WhyItStops(enc: Writer, s: seq<Byte>, at: nat, room: nat)
    requires at <= |s|
    ensures
      var r := Run(enc, s, at, room);
      && (r.ret == -2 <==> r.next < |s| && CharAt(s, r.next).Malformed?)
      && (r.ret == -2 || r.ret == 0)
      && (r.next < |s| && CharAt(s, r.next).Char? ==> |r.out| + |enc(CharAt(s, r.next).c)| > room)
    decreases |s| - at
  {
    var r := Run(enc, s, at, room);
    if r.next > at {
      var ch := CharAt(s, at);
      WhyItStops(enc, s, at + ch.len, room - |enc(ch.c)|);
    }
  }

  // ---------------------------------------------------------------- restarting

  /** The encoding of all whole characters from a position on, with as much room as it takes. */
  function Whole(enc: Writer, s: seq<Byte>, at: nat): Outcome
    requires at <= |s|
    decreases |s| - at
  {
    if at == |s| then Outcome(0, [], at)
    else match CharAt(s, at)
      case Malformed => Outcome(-2, [], at)
      case Cut => Outcome(0, [], at)
      case Char(c, len) =>
        var r := Whole(enc, s, at + len);
        r.(out := enc(c) + r.out)
  }

  /** Input that is whole characters throughout is encoded throughout. */
  lemma {:induction false} WholeEncodes(enc: Writer, s: seq<Byte>, at: nat)
    requires at <= |s| && Chars(s, at, |s|).Some?
    ensures Whole(enc, s, at) == Outcome(0, WrittenAll(enc, Chars(s, at, |s|).value), |s|)
    decreases |s| - at
  {
    if at < |s| {
      var ch := CharAt(s, at);
      WholeEncodes(enc, s, at + ch.len);
      WrittenCons(enc, ch.c, Chars(s, at + ch.len, |s|).value);
    }
  }

  /** A part from a position on and what follows it make up the whole. */
  ghost predicate IsPart(enc: Writer, s: seq<Byte>, at: nat, r: Outcome)
    requires at <= |s|
  {
    && r.next <= |s|
    && var rest := Whole(enc, s, r.next);
       Whole(enc, s, at) == rest.(out := r.out + rest.out)
  }

  lemma IsPartCons(enc: Writer, s: seq<Byte>, at: nat, ch: Decoded, inner: Outcome, r: Outcome)
    requires at < |s| && ch.Char? && CharAt(s, at) == ch && IsPart(enc, s, at + ch.len, inner)
    requires r.out == enc(ch.c) + inner.out && r.next == inner.next
    ensures IsPart(enc, s, at, r)
  {
    var rest := Whole(enc, s, r.next);
    assert enc(ch.c) + (inner.out + rest.out) == r.out + rest.out;
  }

  /** What one call does is part of the whole. */
  lemma {:induction false} RunIsPart(enc: Writer, s: seq<Byte>, at: nat, room: nat)
    requires at <= |s|
    ensures IsPart(enc, s, at, Run(enc, s, at, room))
    decreases |s| - at
  {
    var r := Run(enc, s, at, room);
    if r.next > at {
      var ch := CharAt(s, at);
      RunIsPart(enc, s, at + ch.len, room - |enc(ch.c)|);
      IsPartCons(enc, s, at, ch, Run(enc, s, at + ch.len, room - |enc(ch.c)|), r);
    } else {
      var rest := Whole(enc, s, at);
      assert [] + rest.out == rest.out;
    }
  }

  /** Calls with one fresh buffer after the other, each from where the one before stopped. */
  function Resumed(enc: Writer, s: seq<Byte>, at: nat, rooms: seq<nat>): Outcome
    requires at <= |s| && rooms != []
    decreases |rooms|
  {
    var r := Run(enc, s, at, rooms[0]);
    if |rooms| == 1 then r
    else
      var rest := Resumed(enc, s, r.next, rooms[1..]);
      rest.(out := r.out + rest.out)
  }

  /** Every encoded character fits into the room. */
  ghost predicate Fits(enc: Writer, room: nat) {
    forall c: nat :: c < 0x20_0000 ==> |enc(c)| <= room
  }

  /** Restarting with enough buffers that each fit one encoded character gives the encoding of the whole, and the
      result code of the whole. */
  lemma {:induction false} RestartIsWhole(enc: Writer, s: seq<Byte>, at: nat, rooms: seq<nat>)
    requires at <= |s| && |rooms| > |s| - at
    requires forall i :: 0 <= i < |rooms| ==> Fits(enc, rooms[i])
    ensures Resumed(enc, s, at, rooms) == Whole(enc, s, at)
    decreases |rooms|
  {
    var r := Run(enc, s, at, rooms[0]);
    RunIsPart(enc, s, at, rooms[0]);
    if at == |s| || !CharAt(s, at).Char? {
      StuckStays(enc, s, at, rooms);
    } else {
      CharBounded(s, at);
      assert Fits(enc, rooms[0]) && |enc(CharAt(s, at).c)| <= rooms[0];
      RestartIsWhole(enc, s, r.next, rooms[1..]);
      assert Resumed(enc, s, r.next, rooms[1..]) == Whole(enc, s, r.next);
    }
  }

  /** Where no character begins, further calls change nothing. */
  lemma {:induction false} StuckStays(enc: Writer, s: seq<Byte>, at: nat, rooms: seq<nat>)
    requires rooms != [] && at <= |s| && (at < |s| ==> !CharAt(s, at).Char?)
    ensures Resumed(enc, s, at, rooms) == Whole(enc, s, at)
    decreases |rooms|
  {
    if |rooms| > 1 {
      StuckStays(enc, s, at, rooms[1..]);
    }
  }
}

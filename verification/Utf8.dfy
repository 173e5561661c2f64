/** Bytes and UTF-8 as the HTML code reads and writes it: the shifts and masks are written as divisions,
    remainders and sums of disjoint bits. */
module Utf8 {
  import opened XmlString

  type Byte = b: nat | b < 256

  /** The bytes that stand for a code point (section 3 of RFC 3629, without its upper limit). */
  function Encode(c: nat): (r: seq<Byte>)
    ensures 1 <= |r| <= 4
  {
    if c < 0x80 then [c]
    else if c < 0x800 then [0xC0 + c / 0x40 % 0x20, 0x80 + c % 0x40]
    else if c < 0x1_0000 then [0xE0 + c / 0x1000 % 0x10, 0x80 + c / 0x40 % 0x40, 0x80 + c % 0x40]
    else [0xF0 + c / 0x4_0000 % 8, 0x80 + c / 0x1000 % 0x40, 0x80 + c / 0x40 % 0x40, 0x80 + c % 0x40]
  }

  /** How each character is written. */
  type Writer = nat -> seq<Byte>

  function WrittenAll(write: Writer, cs: seq<nat>): seq<Byte> {
    if cs == [] then [] else write(cs[0]) + WrittenAll(write, cs[1..])
  }

  /** The bytes of a text. */
  function EncodeAll(cs: seq<nat>): seq<Byte> {
    WrittenAll(Encode, cs)
  }

  predicate Trailing(d: Byte) {
    0x80 <= d < 0xC0
  }

  /** What stands at a position in some bytes. */
  datatype Decoded = Malformed | Cut | Char(c: nat, len: nat)

  /** The number of trailing bytes that a leading byte asks for, and the bits that it contributes. */
  function Lead(d: Byte): Option<(nat, nat)> {
    if d < 0x80 then Some((d, 0))
    else if d < 0xC0 then None
    else if d < 0xE0 then Some((d % 0x20, 1))
    else if d < 0xF0 then Some((d % 0x10, 2))
    else if d < 0xF8 then Some((d % 8, 3))
    else None
  }

  /** Appends the low six bits of the n trailing bytes from a position on. */
  function Extend(c: nat, s: seq<Byte>, at: nat, n: nat): Option<nat>
    requires at + n <= |s|
  {
    if n == 0 then Some(c)
    else
      var r := Extend(c, s, at, n - 1);
      if r.None? || !Trailing(s[at + n - 1]) then None else Some(r.value * 0x40 + s[at + n - 1] % 0x40)
  }

  lemma {:induction false} ExtendFails(c: nat, s: seq<Byte>, at: nat, i: nat, n: nat)
    requires i < n && at + n <= |s| && !Trailing(s[at + i])
    ensures Extend(c, s, at, n) == None
  {
    if i < n - 1 {
      ExtendFails(c, s, at, i, n - 1);
    }
  }

  /** The character at a position, as the entity encoder reads it. */
  function CharAt(s: seq<Byte>, at: nat): (r: Decoded)
    requires at < |s|
    ensures r.Char? ==> 1 <= r.len <= 4 && at + r.len <= |s|
  {
    var lead := Lead(s[at]);
    if lead.None? then Malformed
    else if |s| - (at + 1) < lead.value.1 then Cut
    else
      var c := Extend(lead.value.0, s, at + 1, lead.value.1);
      if c.None? then Malformed else Char(c.value, 1 + lead.value.1)
  }

  lemma {:induction false} ExtendOnce(c: nat, s: seq<Byte>, at: nat, n: nat, d: nat)
    requires at + n < |s| && d < 0x40 && s[at + n] == 0x80 + d && Extend(c, s, at, n).Some?
    ensures Extend(c, s, at, n + 1) == Some(Extend(c, s, at, n).value * 0x40 + d)
  {
    assert s[at + n] % 0x40 == d;
  }

  /** The value that the encoder reads always fits into the bits that it has. */
  lemma CharBounded(s: seq<Byte>, at: nat)
    requires at < |s| && CharAt(s, at).Char?
    ensures CharAt(s, at).c < 0x20_0000
  {
    var lead := Lead(s[at]).value;
    ExtendBounded(lead.0, s, at + 1, lead.1);
  }

  lemma {:induction false} ExtendBounded(c: nat, s: seq<Byte>, at: nat, n: nat)
    requires at + n <= |s| && n <= 3 && Extend(c, s, at, n).Some?
    ensures
      var v := Extend(c, s, at, n).value;
      v <= if n == 0 then c
           else if n == 1 then c * 0x40 + 0x3F
           else if n == 2 then c * 0x1000 + 0xFFF
           else c * 0x4_0000 + 0x3_FFFF
  {
    if n > 0 {
      ExtendBounded(c, s, at, n - 1);
    }
  }

  /** Splitting a code point into six-bit groups and joining them again changes nothing. */
  lemma Groups(c: nat)
    requires c < 0x20_0000
    ensures c == ((c / 0x4_0000 * 0x40 + c / 0x1000 % 0x40) * 0x40 + c / 0x40 % 0x40) * 0x40 + c % 0x40
    ensures c < 0x1_0000 ==> c == (c / 0x1000 * 0x40 + c / 0x40 % 0x40) * 0x40 + c % 0x40
    ensures c < 0x800 ==> c == c / 0x40 * 0x40 + c % 0x40
  {
    assert c / 0x1000 == c / 0x40 / 0x40;
    assert c / 0x4_0000 == c / 0x1000 / 0x40;
  }

  /** The leading byte has room for the bits above the six-bit groups. */
  lemma LeadOf(c: nat)
    requires c < 0x20_0000
    ensures Lead(Encode(c)[0]) == Some(
      if c < 0x80 then (c, 0)
      else if c < 0x800 then (c / 0x40, 1)
      else if c < 0x1_0000 then (c / 0x1000, 2)
      else (c / 0x4_0000, 3))
  {
  }

  /** The bytes stand at the position. */
  predicate Stands(e: seq<Byte>, s: seq<Byte>, at: nat) {
    at + |e| <= |s| && forall i :: 0 <= i < |e| ==> s[at + i] == e[i]
  }

  /** One to three trailing bytes are read as the bits that they hold. */
  lemma ReadGroups(a: nat, ds: seq<nat>, s: seq<Byte>, at: nat)
    requires 1 <= |ds| <= 3 && at + |ds| <= |s|
    requires forall i :: 0 <= i < |ds| ==> ds[i] < 0x40 && s[at + i] == 0x80 + ds[i]
    ensures Extend(a, s, at, |ds|) == Some(
      if |ds| == 1 then a * 0x40 + ds[0]
      else if |ds| == 2 then (a * 0x40 + ds[0]) * 0x40 + ds[1]
      else ((a * 0x40 + ds[0]) * 0x40 + ds[1]) * 0x40 + ds[2])
  {
    ExtendOnce(a, s, at, 0, ds[0]);
    if |ds| > 1 {
      ExtendOnce(a, s, at, 1, ds[1]);
    }
    if |ds| > 2 {
      ExtendOnce(a, s, at, 2, ds[2]);
    }
  }

  lemma ReadChar(a: nat, ds: seq<nat>, s: seq<Byte>, at: nat)
    requires 1 <= |ds| <= 3 && at + 1 + |ds| <= |s| && Lead(s[at]) == Some((a, |ds|))
    requires forall i :: 0 <= i < |ds| ==> ds[i] < 0x40 && s[at + 1 + i] == 0x80 + ds[i]
    ensures CharAt(s, at) == Char(
      if |ds| == 1 then a * 0x40 + ds[0]
      else if |ds| == 2 then (a * 0x40 + ds[0]) * 0x40 + ds[1]
      else ((a * 0x40 + ds[0]) * 0x40 + ds[1]) * 0x40 + ds[2], 1 + |ds|)
  {
    ReadGroups(a, ds, s, at + 1);
  }

  /** Decoding inverts encoding, whatever stands around it. */
  lemma CharAtEncode(c: nat, s: seq<Byte>, at: nat)
    requires c < 0x20_0000 && Stands(Encode(c), s, at)
    ensures CharAt(s, at) == Char(c, |Encode(c)|)
  {
    var e := Encode(c);
    var x, y, z := c / 0x1000 % 0x40, c / 0x40 % 0x40, c % 0x40;
    Groups(c);
    LeadOf(c);
    assert s[at] == e[0];
    if 0x80 <= c < 0x800 {
      assert s[at + 1] == e[1];
      ReadChar(c / 0x40, [z], s, at);
    } else if 0x800 <= c < 0x1_0000 {
      assert s[at + 1] == e[1] && s[at + 2] == e[2];
      ReadChar(c / 0x1000, [y, z], s, at);
    } else if 0x1_0000 <= c {
      assert s[at + 1] == e[1] && s[at + 2] == e[2] && s[at + 3] == e[3];
      ReadChar(c / 0x4_0000, [x, y, z], s, at);
    }
  }

  /** xmlIsCharQ. */
  predicate IsChar(c: nat) {
    if c < 0x100 then 9 <= c <= 10 || c == 13 || 0x20 <= c
    else 0x100 <= c <= 0xD7FF || 0xE000 <= c <= 0xFFFD || 0x1_0000 <= c <= 0x10_FFFF
  }
}

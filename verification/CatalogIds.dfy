/** Public identifiers of the catalog resolver: normalisation and the unwrapping of publicid URNs. */
module CatalogIds {
  import opened XmlString
  import opened Memory

  const XML_URN_PUBID := "urn:publicid:"

  /** xmlIsBlank_ch. */
  predicate Blank(c: char) {
    c == ' ' || c == '\t' || c == '\n' || c == '\r'
  }

  // ---------------------------------------------------------------- normalisation

  /** The maximal runs of non-blank characters. */
  function Words(s: string): (ws: seq<string>)
    ensures forall i :: 0 <= i < |ws| ==> ws[i] != []
    ensures s != [] && !Blank(s[|s| - 1]) ==> ws != []
  {
    if s == [] then []
    else
      var n := |s| - 1;
      var ws := Words(s[..n]);
      if Blank(s[n]) then ws
      else if n == 0 || Blank(s[n - 1]) then ws + [[s[n]]]
      else ws[..|ws| - 1] + [ws[|ws| - 1] + [s[n]]]
  }

  function Join(ws: seq<string>): string {
    if ws == [] then []
    else if |ws| == 1 then ws[0]
    else Join(ws[..|ws| - 1]) + " " + ws[|ws| - 1]
  }

  /** Public identifier normalisation: surrounding blanks go, inner runs of blanks become one space. */
  function Normal(s: string): string {
    Join(Words(s))
  }

  lemma JoinNonEmpty(ws: seq<string>)
    requires forall i :: 0 <= i < |ws| ==> ws[i] != []
    ensures Join(ws) == [] <==> ws == []
  {
  }

  /** How one more character changes the normal form: the step of the in-place pass. */
  lemma NormalStep(s: string, c: char)
    ensures Normal(s + [c]) ==
      if Blank(c) then Normal(s)
      else if Normal(s) == [] then [c]
      else if Blank(s[|s| - 1]) then Normal(s) + [' ', c]
      else Normal(s) + [c]
    ensures s == [] ==> Normal(s) == []
  {
    var t := s + [c];
    assert t[..|s|] == s;
    var ws := Words(s);
    JoinNonEmpty(ws);
    if !Blank(c) && s != [] && ws != [] {
      if Blank(s[|s| - 1]) {
        assert (ws + [[c]])[..|ws|] == ws;
      } else {
        var last := ws[|ws| - 1];
        assert (ws[..|ws| - 1] + [last + [c]])[..|ws| - 1] == ws[..|ws| - 1];
        assert Join(ws[..|ws| - 1]) + " " + (last + [c]) == Join(ws[..|ws| - 1]) + " " + last + [c];
      }
    }
  }

  /** No blank but single spaces between other characters. */
  ghost predicate IsNormal(s: string) {
    forall i :: 0 <= i < |s| && Blank(s[i]) ==> s[i] == ' ' && 0 < i < |s| - 1 && !Blank(s[i - 1])
  }

  /** The normal form is normal and ends in no blank. */
  lemma {:induction false} NormalIsNormal(s: string)
    ensures IsNormal(Normal(s))
    ensures Normal(s) != [] ==> !Blank(Normal(s)[|Normal(s)| - 1])
    decreases |s|
  {
    if s != [] {
      var t, c := s[..|s| - 1], s[|s| - 1];
      assert s == t + [c];
      NormalStep(t, c);
      NormalIsNormal(t);
    }
  }

  /** A normal string, and any prefix of one up to trailing blanks, is its own normal form. */
  lemma {:induction false} NormalFixes(s: string, n: nat)
    requires IsNormal(s) && n <= |s|
    ensures Normal(s[..n]) == if n > 0 && Blank(s[n - 1]) then s[..n - 1] else s[..n]
    decreases n
  {
    if n > 0 {
      assert s[..n] == s[..n - 1] + [s[n - 1]];
      NormalStep(s[..n - 1], s[n - 1]);
      NormalFixes(s, n - 1);
    }
  }

  /** Exactly the normal strings are unchanged; normalising twice changes nothing. */
  lemma NormalIdempotent(s: string)
    ensures Normal(Normal(s)) == Normal(s)
    ensures Normal(s) == s <==> IsNormal(s)
  {
    NormalIsNormal(s);
    NormalFixes(Normal(s), |Normal(s)|);
    assert Normal(s)[..|Normal(s)|] == Normal(s);
    if IsNormal(s) {
      NormalFixes(s, |s|);
      assert s[..|s|] == s;
    }
  }

  lemma CompactStep(s: string, p: nat)
    requires p < |s|
    ensures Normal(s[..p + 1]) == Normal(s[..p]) +
      if Blank(s[p]) then [] else if p > 0 && Blank(s[p - 1]) && Normal(s[..p]) != [] then [' ', s[p]] else [s[p]]
  {
    assert s[..p + 1] == s[..p] + [s[p]];
    NormalStep(s[..p], s[p]);
  }

  /** xmlCatalogNormalizePublic: NULL for NULL and for non-empty normal input, else the normal form, which a
      second pass over a copy compacts in place with two pointers. */
  method NormalizePublic(pubID: Option<string>) returns (r: Option<string>)
    ensures r.None? <==> pubID.None? || (pubID.value != [] && IsNormal(pubID.value))
    ensures r.Some? ==> r.value == Normal(pubID.value)
  {
    if pubID.None? {
      return None;
    }
    var s := pubID.value;
    var normal := AlreadyNormal(s);
    if normal {
      return None;
    }
    var ret := new char[|s|];
    var q, white := 0, false;
    for p := 0 to |s|
      invariant 0 <= q <= p && (white ==> q < p)
      invariant ret[..q] == Normal(s[..p])
      invariant white <==> p > 0 && Blank(s[p - 1]) && q > 0
    {
      CompactStep(s, p);
      q, white := Compact(ret, q, white, s[p]);
    }
    assert s[..|s|] == s;
    r := Some(ret[..q]);
  }

  /** One step of the in-place pass: a pending space is written before the next non-blank character. */
  method Compact(ret: array<char>, q0: nat, white0: bool, c: char) returns (q: nat, white: bool)
    requires q0 + (if white0 then 1 else 0) < ret.Length
    modifies ret
    ensures q == if Blank(c) then q0 else q0 + (if white0 then 2 else 1)
    ensures white == (Blank(c) && (q0 != 0 || white0))
    ensures ret[..q] == old(ret[..q0]) + (if Blank(c) then [] else if white0 then [' ', c] else [c])
  {
    q, white := q0, white0;
    if Blank(c) {
      if q != 0 {
        white := true;
      }
    } else {
      if white {
        ret[q] := ' ';
        q := q + 1;
        white := false;
      }
      ret[q] := c;
      q := q + 1;
    }
  }

  /** The first loop: is the identifier normalised already? */
  method AlreadyNormal(s: string) returns (r: bool)
    ensures r <==> s != [] && IsNormal(s)
  {
    var ok, white := true, true;
    var p := 0;
    while p < |s| && ok
      invariant 0 <= p <= |s|
      invariant ok ==> (white <==> p == 0 || Blank(s[p - 1]))
      invariant ok ==> forall i :: 0 <= i < p && Blank(s[i]) ==> s[i] == ' ' && 0 < i && !Blank(s[i - 1])
      invariant !ok ==> !IsNormal(s)
    {
      if !Blank(s[p]) {
        white := false;
      } else if s[p] == ' ' && !white {
        white := true;
      } else {
        ok := false;
      }
      p := p + 1;
    }
    r := ok && !white;
  }

  // ---------------------------------------------------------------- publicid URNs

  predicate IsUrn(s: string) {
    XML_URN_PUBID <= s
  }

  /** The character that a three-character escape stands for. */
  function Decoded(s: string): Option<char> {
    if "%2B" <= s then Some('+')
    else if "%3A" <= s then Some(':')
    else if "%2F" <= s then Some('/')
    else if "%3B" <= s then Some(';')
    else if "%27" <= s then Some('\'')
    else if "%3F" <= s then Some('?')
    else if "%23" <= s then Some('#')
    else if "%25" <= s then Some('%')
    else None
  }

  /** What the next input characters turn into, and how many of them there are. */
  function Piece(s: string): (r: (string, nat))
    requires s != []
    ensures 1 <= |r.0| <= 2 && 1 <= r.1 <= |s|
  {
    if s[0] == '+' then (" ", 1)
    else if s[0] == ':' then ("//", 1)
    else if s[0] == ';' then ("::", 1)
    else if Decoded(s).Some? then ([Decoded(s).value], 3)
    else ([s[0]], 1)
  }

  /** Unwrapping with a result buffer of 2000 characters, of which `i` are used: it stops when fewer than four
      are left. */
  function UnwrapFrom(s: string, i: nat): string
    decreases |s|
  {
    if s == [] || i > 2000 - 4 then []
    else
      var (out, n) := Piece(s);
      out + UnwrapFrom(s[n..], i + |out|)
  }

  function Unwrap(urn: string): string
    requires IsUrn(urn)
  {
    UnwrapFrom(urn[|XML_URN_PUBID|..], 0)
  }

  /** xmlCatalogUnWrapURN; all writes stay inside the 2000-character buffer. */
  method UnWrapURN(urn: string) returns (r: Option<string>)
    ensures r == if IsUrn(urn) then Some(Unwrap(urn)) else None
  {
    if !IsUrn(urn) {
      return None;
    }
    var result := new char[2000];
    var cur, i := |XML_URN_PUBID|, 0;
    while cur < |urn| && i <= 2000 - 4
      invariant |XML_URN_PUBID| <= cur <= |urn| && 0 <= i < 2000
      invariant result[..i] + UnwrapFrom(urn[cur..], i) == Unwrap(urn)
      decreases |urn| - cur
    {
      cur, i := UnwrapOne(urn, cur, result, i);
    }
    ghost var done := result[..i];
    assert UnwrapFrom(urn[cur..], i) == [];
    assert done == done + [];
    result[i] := '\0';
    assert result[..i] == done;
    r := Some(result[..i]);
  }

  /** One round of the unwrapping loop. */
  method UnwrapOne(urn: string, cur: nat, result: array<char>, i: nat) returns (next: nat, used: nat)
    requires cur < |urn| && i <= 2000 - 4 && result.Length == 2000
    modifies result
    ensures cur < next <= |urn| && used < 2000
    ensures result[..used] + UnwrapFrom(urn[next..], used) == old(result[..i]) + UnwrapFrom(urn[cur..], i)
  {
    UnwrapStep(urn, cur, i, result[..i]);
    var (out, n) := Piece(urn[cur..]);
    Memcpy(result, i, out);
    next, used := cur + n, i + |out|;
  }

  lemma UnwrapStep(urn: string, cur: nat, i: nat, done: string)
    requires cur < |urn| && i <= 2000 - 4
    ensures
      var (out, n) := Piece(urn[cur..]);
      done + UnwrapFrom(urn[cur..], i) == done + out + UnwrapFrom(urn[cur + n..], i + |out|)
  {
    var (out, n) := Piece(urn[cur..]);
    assert urn[cur..][n..] == urn[cur + n..];
    assert done + (out + UnwrapFrom(urn[cur + n..], i + |out|)) == done + out + UnwrapFrom(urn[cur + n..], i + |out|);
  }

  // ---------------------------------------------------------------- why unwrapping ends

  function Percents(s: string): nat {
    if s == [] then 0 else (if s[|s| - 1] == '%' then 1 else 0) + Percents(s[..|s| - 1])
  }

  lemma {:induction false} PercentsAppend(a: string, b: string)
    ensures Percents(a + b) == Percents(a) + Percents(b)
  {
    if b == [] {
      assert a + b == a;
    } else {
      assert (a + b)[..|a + b| - 1] == a + b[..|b| - 1];
      PercentsAppend(a, b[..|b| - 1]);
    }
  }

  /** The character at the position has a colon beside it. */
  predicate Paired(s: string, j: nat)
    requires j < |s|
  {
    (j > 0 && s[j - 1] == ':') || (j + 1 < |s| && s[j + 1] == ':')
  }

  /** Every colon has a colon beside it. */
  ghost predicate ColonsPaired(s: string) {
    forall j :: 0 <= j < |s| && s[j] == ':' ==> Paired(s, j)
  }

  lemma PercentsOne(c: char)
    ensures Percents([c]) == if c == '%' then 1 else 0
  {
    assert [c][..0] == [];
  }

  lemma PercentsTwo(c: char, d: char)
    ensures Percents([c, d]) == Percents([c]) + Percents([d])
  {
    assert [c, d] == [c] + [d];
    PercentsAppend([c], [d]);
  }

  lemma PieceCounts(s: string)
    requires s != []
    ensures
      var (out, n) := Piece(s);
      && Percents(out) <= Percents(s[..n])
      && (Percents(out) == Percents(s[..n]) ==> ColonsPaired(out))
  {
    var (out, n) := Piece(s);
    PercentsOne(s[0]);
    PercentsOne(out[0]);
    if n == 3 {
      assert s[0] == '%' && s[..3] == [s[0]] + s[1..3];
      PercentsAppend([s[0]], s[1..3]);
    } else {
      assert s[..1] == [s[0]];
      if |out| == 2 {
        assert out == [out[0], out[1]];
        PercentsTwo(out[0], out[1]);
      }
    }
  }

  /** Unwrapping never makes '%' more frequent, and where it does not make it rarer it leaves no single colon. */
  lemma {:induction false} UnwrapPercents(s: string, i: nat)
    ensures Percents(UnwrapFrom(s, i)) <= Percents(s)
    ensures Percents(UnwrapFrom(s, i)) == Percents(s) ==> ColonsPaired(UnwrapFrom(s, i))
    decreases |s|
  {
    if s != [] && i <= 2000 - 4 {
      var (out, n) := Piece(s);
      var rest := UnwrapFrom(s[n..], i + |out|);
      PieceCounts(s);
      UnwrapPercents(s[n..], i + |out|);
      assert s[..n] + s[n..] == s;
      PercentsAppend(s[..n], s[n..]);
      PercentsAppend(out, rest);
      if ColonsPaired(out) && ColonsPaired(rest) {
        PairedAppend(out, rest);
      }
    }
  }

  lemma PairedAppend(a: string, b: string)
    requires ColonsPaired(a) && ColonsPaired(b)
    ensures ColonsPaired(a + b)
  {
    var s := a + b;
    forall j | 0 <= j < |s| && s[j] == ':'
      ensures Paired(s, j)
    {
      if j < |a| {
        assert a[j] == ':' && Paired(a, j);
        assert j > 0 ==> s[j - 1] == a[j - 1];
        assert j + 1 < |a| ==> s[j + 1] == a[j + 1];
      } else {
        var k := j - |a|;
        assert b[k] == ':' && Paired(b, k);
        assert k > 0 ==> s[j - 1] == b[k - 1];
        assert k + 1 < |b| ==> s[j + 1] == b[k + 1];
      }
    }
  }

  /** Normalisation keeps the number of '%' characters. */
  lemma {:induction false} NormalPercents(s: string)
    ensures Percents(Normal(s)) == Percents(s)
    decreases |s|
  {
    if s != [] {
      var t, c := s[..|s| - 1], s[|s| - 1];
      assert s == t + [c];
      NormalStep(t, c);
      NormalPercents(t);
      PercentsOne(c);
      PercentsOne(' ');
      PercentsTwo(' ', c);
      PercentsAppend(Normal(t), [c]);
      PercentsAppend(Normal(t), [' ', c]);
    }
  }

  predicate At(p: string, s: string, k: nat) {
    k + |p| <= |s| && s[k..k + |p|] == p
  }

  /** The text stands contiguously in the string. */
  ghost predicate Occurs(p: string, s: string) {
    exists k: nat :: At(p, s, k)
  }

  lemma OccursMore(p: string, s: string, c: char)
    requires Occurs(p, s)
    ensures Occurs(p, s + [c])
  {
    var k: nat :| At(p, s, k);
    assert (s + [c])[k..k + |p|] == p;
    assert At(p, s + [c], k);
  }

  /** A normal form without blanks is a suffix of its string, up to trailing blanks. */
  lemma {:induction false} SingleWord(s: string)
    requires Normal(s) != [] && forall i :: 0 <= i < |Normal(s)| ==> !Blank(Normal(s)[i])
    requires !Blank(s[|s| - 1])
    ensures |Normal(s)| <= |s| && s[|s| - |Normal(s)|..] == Normal(s)
    decreases |s|
  {
    var t, c := s[..|s| - 1], s[|s| - 1];
    assert s == t + [c];
    NormalStep(t, c);
    if Normal(t) != [] {
      if Blank(t[|t| - 1]) {
        assert Blank(Normal(s)[|Normal(t)|]);
      } else {
        assert forall i :: 0 <= i < |Normal(t)| ==> Normal(t)[i] == Normal(s)[i];
        SingleWord(t);
      }
    }
  }

  /** A blank-free word that ends the normal form's only word ends the string. */
  lemma LastWord(t: string, c: char)
    requires t != [] && !Blank(t[|t| - 1]) && Normal(t) != []
    requires forall i :: 0 <= i < |Normal(t)| ==> !Blank(Normal(t)[i])
    ensures Occurs(Normal(t) + [c], t + [c])
  {
    SingleWord(t);
    var k, p, s := |t| - |Normal(t)|, Normal(t) + [c], t + [c];
    assert s[k..k + |p|] == t[k..] + [c];
    assert At(p, s, k);
  }

  lemma LongerPrefix(p: string, n: string, more: string)
    requires p <= n + more && !(p <= n)
    ensures n <= p && |p| > |n| && p[|n|] == more[0]
    ensures |more| == 1 ==> p == n + more
  {
    assert p[..|n|] == (n + more)[..|n|] == n;
    assert p[|n|] == (n + more)[|n|];
    if |more| == 1 {
      assert |p| == |n + more| && p == (n + more)[..|p|];
    }
  }

  /** What begins the normal form, if it has no blanks, stands contiguously in the string itself. */
  lemma {:induction false} PrefixOccurs(p: string, s: string)
    requires p != [] && NoBlanks(p) && p <= Normal(s)
    ensures Occurs(p, s)
    decreases |s|
  {
    if s == [] {
      NormalStep([], ' ');
    } else {
      var t, c := s[..|s| - 1], s[|s| - 1];
      assert s == t + [c];
      if p <= Normal(t) {
        PrefixOccurs(p, t);
        OccursMore(p, t, c);
      } else {
        PrefixEnds(p, t, c);
      }
    }
  }

  ghost predicate NoBlanks(p: string) {
    forall i :: 0 <= i < |p| ==> !Blank(p[i])
  }

  /** A longer prefix than what the characters before the last one give ends with that character. */
  lemma PrefixEnds(p: string, t: string, c: char)
    requires p != [] && NoBlanks(p) && p <= Normal(t + [c]) && !(p <= Normal(t))
    ensures Occurs(p, t + [c])
  {
    var n := Normal(t);
    NormalStep(t, c);
    NormalStep([], ' ');
    if n == [] {
      assert p == [c];
      assert At(p, t + [c], |t|);
    } else {
      LastCharacter(p, t, c);
    }
  }

  lemma LastCharacter(p: string, t: string, c: char)
    requires NoBlanks(p) && p <= Normal(t + [c]) && Normal(t) != [] && !(p <= Normal(t))
    ensures Occurs(p, t + [c])
  {
    var n := Normal(t);
    NormalStep(t, c);
    NormalStep([], ' ');
    var more := if Blank(t[|t| - 1]) then [' ', c] else [c];
    LongerPrefix(p, n, more);
    assert !Blank(p[|n|]);
    assert forall i :: 0 <= i < |n| ==> n[i] == p[i];
    LastWord(t, c);
  }

  lemma LonelyColon(s: string)
    requires Occurs(XML_URN_PUBID, s)
    ensures !ColonsPaired(s)
  {
    var k: nat :| At(XML_URN_PUBID, s, k);
    assert s[k + 2] == XML_URN_PUBID[2] && s[k + 3] == XML_URN_PUBID[3] && s[k + 4] == XML_URN_PUBID[4];
  }

  /** Unwrapping never makes '%' more frequent, and makes it rarer whenever the result, as it stands or after
      normalisation, is a publicid URN again. */
  lemma UnwrapShrinks(urn: string)
    requires IsUrn(urn)
    ensures Percents(Unwrap(urn)) <= Percents(urn)
    ensures IsUrn(Normal(Unwrap(urn))) || IsUrn(Unwrap(urn)) ==> Percents(Unwrap(urn)) < Percents(urn)
  {
    var tail, r := urn[|XML_URN_PUBID|..], Unwrap(urn);
    UnwrapPercents(tail, 0);
    assert urn[..|XML_URN_PUBID|] + tail == urn;
    PercentsAppend(urn[..|XML_URN_PUBID|], tail);
    if IsUrn(Normal(r)) {
      PrefixOccurs(XML_URN_PUBID, r);
      LonelyColon(r);
    }
    if IsUrn(r) {
      assert At(XML_URN_PUBID, r, 0);
      LonelyColon(r);
    }
  }
}

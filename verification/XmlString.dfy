/** The byte-wise string order of xmlStrcmp, and the option type the model uses for NULL. */
module XmlString {

  datatype Option<+T> = None | Some(value: T)

  /** xmlStrcmp (xmlstring.c:131-143), reduced to the sign of its result. */
  function StrCmp(a: string, b: string): (r: int)
    ensures -1 <= r <= 1
    ensures r == 0 <==> a == b
  {
    if a == [] then (if b == [] then 0 else -1)
    else if b == [] then 1
    else if a[0] < b[0] then -1
    else if b[0] < a[0] then 1
    else
      var r := StrCmp(a[1..], b[1..]);
      assert a == [a[0]] + a[1..] && b == [b[0]] + b[1..];
      r
  }

  lemma {:induction false} StrCmpAntisymmetric(a: string, b: string)
    ensures StrCmp(a, b) == -StrCmp(b, a)
  {
    if a != [] && b != [] {
      StrCmpAntisymmetric(a[1..], b[1..]);
    }
  }

  lemma {:induction false} StrCmpTransitive(a: string, b: string, c: string)
    requires StrCmp(a, b) < 0 && StrCmp(b, c) < 0
    ensures StrCmp(a, c) < 0
  {
    if a != [] && b != [] && c != [] && a[0] == b[0] == c[0] {
      StrCmpTransitive(a[1..], b[1..], c[1..]);
    }
  }

  /** The order that the comparison stands for: one string is a proper beginning of the other, or at the first place
      where they differ it has the smaller character. */
  ghost predicate Precedes(a: string, b: string) {
    exists i :: 0 <= i <= |a| && i < |b| && (forall k :: 0 <= k < i ==> a[k] == b[k]) && (i == |a| || a[i] < b[i])
  }

  /** A negative result says that the first operand precedes the second. */
  lemma {:induction false} StrCmpIsOrder(a: string, b: string)
    ensures StrCmp(a, b) < 0 <==> Precedes(a, b)
  {
    if a != [] && b != [] && a[0] == b[0] {
      StrCmpIsOrder(a[1..], b[1..]);
      PrecedesBehind(a, b);
    }
  }

  lemma PrecedesBehind(a: string, b: string)
    requires a != [] && b != [] && a[0] == b[0]
    ensures Precedes(a, b) <==> Precedes(a[1..], b[1..])
  {
    var s, t := a[1..], b[1..];
    if Precedes(a, b) {
      var i :| 0 <= i <= |a| && i < |b| && (forall k :: 0 <= k < i ==> a[k] == b[k]) && (i == |a| || a[i] < b[i]);
      assert forall k :: 0 <= k < i - 1 ==> s[k] == a[k + 1] && t[k] == b[k + 1];
      assert i - 1 == |s| || s[i - 1] < t[i - 1];
    }
    if Precedes(s, t) {
      var i :| 0 <= i <= |s| && i < |t| && (forall k :: 0 <= k < i ==> s[k] == t[k]) && (i == |s| || s[i] < t[i]);
      assert forall k :: 0 < k < i + 1 ==> a[k] == s[k - 1] && b[k] == t[k - 1];
      assert i + 1 == |a| || a[i + 1] < b[i + 1];
    }
  }
}

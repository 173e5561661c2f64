/** The sorted list of list.c that the canonicaliser fills and then walks: a new link goes in front of
    the first link that does not compare below it. */
module SortedList {
  import opened XmlString

  /** What the two comparators of the canonicaliser order by: an optional URI, absent first, then a name. */
  datatype Key = Key(uri: Option<string>, name: string)

  function KeyCmp(a: Key, b: Key): (r: int)
    ensures r == 0 <==> a == b
  {
    if a.uri == b.uri then StrCmp(a.name, b.name)
    else if a.uri.None? then -1
    else if b.uri.None? then 1
    else StrCmp(a.uri.value, b.uri.value)
  }

  lemma KeyAntisymmetric(a: Key, b: Key)
    ensures KeyCmp(a, b) == -KeyCmp(b, a)
  {
    StrCmpAntisymmetric(a.name, b.name);
    if a.uri.Some? && b.uri.Some? {
      StrCmpAntisymmetric(a.uri.value, b.uri.value);
    }
  }

  lemma KeyTransitive(a: Key, b: Key, c: Key)
    requires KeyCmp(a, b) < 0 && KeyCmp(b, c) < 0
    ensures KeyCmp(a, c) < 0
  {
    if a.uri == b.uri == c.uri {
      StrCmpTransitive(a.name, b.name, c.name);
    } else if a.uri.Some? && b.uri.Some? && c.uri.Some? && a.uri != b.uri && b.uri != c.uri {
      StrCmpTransitive(a.uri.value, b.uri.value, c.uri.value);
    }
  }

  /** No URI first, then ascending URIs; where they agree, ascending names. */
  ghost predicate KeyPrecedes(a: Key, b: Key) {
    if a.uri == b.uri then Precedes(a.name, b.name)
    else a.uri.None? || (b.uri.Some? && Precedes(a.uri.value, b.uri.value))
  }

  lemma KeyCmpIsOrder(a: Key, b: Key)
    ensures KeyCmp(a, b) < 0 <==> KeyPrecedes(a, b)
  {
    StrCmpIsOrder(a.name, b.name);
    if a.uri.Some? && b.uri.Some? {
      StrCmpIsOrder(a.uri.value, b.uri.value);
    }
  }

  ghost predicate Sorted<T>(s: seq<T>, key: T -> Key) {
    forall i, j :: 0 <= i < j < |s| ==> KeyCmp(key(s[i]), key(s[j])) < 0
  }

  /** Against the links of `list` the comparator places `data` as the keys do. */
  ghost predicate Agrees<T>(cmp: (T, T) -> int, key: T -> Key, list: seq<T>, data: T) {
    forall x | x in list ::
      && (cmp(x, data) < 0 <==> KeyCmp(key(x), key(data)) < 0)
      && (cmp(x, data) == 0 <==> key(x) == key(data))
  }

  ghost function Inserted<T>(list: seq<T>, data: T, cmp: (T, T) -> int): seq<T> {
    if list == [] || cmp(list[0], data) >= 0 then [data] + list
    else [list[0]] + Inserted(list[1..], data, cmp)
  }

  /** xmlListInsert with its xmlListLowerSearch walk (list.c). */
  method ListInsert<T>(list: seq<T>, data: T, cmp: (T, T) -> int) returns (r: seq<T>)
    ensures r == Inserted(list, data, cmp)
  {
    var i := 0;
    while i < |list| && cmp(list[i], data) < 0
      invariant 0 <= i <= |list|
      invariant Inserted(list, data, cmp) == list[..i] + Inserted(list[i..], data, cmp)
    {
      assert list[i..][1..] == list[i + 1..];
      assert list[..i + 1] == list[..i] + [list[i]];
      i := i + 1;
    }
    r := list[..i] + [data] + list[i..];
  }

  /** The outcome of the search: it stops at the first link that is not below the data. */
  ghost predicate Searched<T>(list: seq<T>, data: T, cmp: (T, T) -> int) {
    list != [] && if cmp(list[0], data) < 0 then Searched(list[1..], data, cmp) else cmp(list[0], data) == 0
  }

  /** xmlListSearch (list.c). */
  method ListSearch<T>(list: seq<T>, data: T, cmp: (T, T) -> int) returns (found: bool)
    ensures found == Searched(list, data, cmp)
  {
    var i := 0;
    while i < |list| && cmp(list[i], data) < 0
      invariant 0 <= i <= |list|
      invariant Searched(list, data, cmp) == Searched(list[i..], data, cmp)
    {
      assert list[i..][1..] == list[i + 1..];
      i := i + 1;
    }
    found := i < |list| && cmp(list[i], data) == 0;
  }

  /** In a sorted list the search finds exactly the equal keys. */
  lemma {:induction false} SearchFinds<T>(list: seq<T>, data: T, cmp: (T, T) -> int, key: T -> Key)
    requires Sorted(list, key) && Agrees(cmp, key, list, data)
    ensures Searched(list, data, cmp) <==> exists x :: x in list && key(x) == key(data)
  {
    if list != [] {
      assert list[0] in list && list == [list[0]] + list[1..];
      if cmp(list[0], data) < 0 {
        SearchFinds(list[1..], data, cmp, key);
      }
    }
  }

  lemma {:induction false} InsertedSplit<T>(list: seq<T>, data: T, cmp: (T, T) -> int) returns (i: nat)
    ensures i <= |list| && Inserted(list, data, cmp) == list[..i] + [data] + list[i..]
    ensures forall k :: 0 <= k < i ==> cmp(list[k], data) < 0
    ensures i < |list| ==> cmp(list[i], data) >= 0
  {
    if list == [] || cmp(list[0], data) >= 0 {
      i := 0;
    } else {
      i := InsertedSplit(list[1..], data, cmp);
      i := i + 1;
    }
  }

  lemma InsertedElements<T>(list: seq<T>, data: T, cmp: (T, T) -> int)
    ensures forall x :: x in Inserted(list, data, cmp) <==> x in list || x == data
  {
    var i := InsertedSplit(list, data, cmp);
    assert list == list[..i] + list[i..];
  }

  lemma InsertedSorted<T>(list: seq<T>, data: T, cmp: (T, T) -> int, key: T -> Key)
    requires Sorted(list, key)
    requires Agrees(cmp, key, list, data)
    requires forall x :: x in list ==> key(x) != key(data)
    ensures Sorted(Inserted(list, data, cmp), key)
    ensures forall x :: x in Inserted(list, data, cmp) <==> x in list || x == data
  {
    var i := InsertedSplit(list, data, cmp);
    InsertedElements(list, data, cmp);
    forall k | 0 <= k < |list|
      ensures k < i ==> KeyCmp(key(list[k]), key(data)) < 0
      ensures i <= k ==> KeyCmp(key(data), key(list[k])) < 0
    {
      assert list[k] in list;
      if i <= k {
        assert list[i] in list;
        KeyAntisymmetric(key(list[i]), key(data));
        if i < k { KeyTransitive(key(data), key(list[i]), key(list[k])); }
      }
    }
  }

  /** A strictly sorted list is determined by its elements. */
  lemma {:induction false} UniqueSorted<T>(a: seq<T>, b: seq<T>, key: T -> Key)
    requires Sorted(a, key) && Sorted(b, key)
    requires forall x :: x in a <==> x in b
    ensures a == b
  {
    assert b == [] || b[0] in b;
    if a != [] {
      assert a[0] in b && b[0] in a;
      var k :| 0 <= k < |b| && b[k] == a[0];
      var j :| 0 <= j < |a| && a[j] == b[0];
      KeyAntisymmetric(key(a[0]), key(b[0]));
      assert a[0] == b[0];
      forall x
        ensures x in a[1..] <==> x in b[1..]
      {
        TailMember(a, key, x);
        TailMember(b, key, x);
      }
      UniqueSorted(a[1..], b[1..], key);
    }
  }

  lemma TailMember<T>(a: seq<T>, key: T -> Key, x: T)
    requires a != [] && Sorted(a, key)
    ensures x in a[1..] <==> x in a && x != a[0]
    ensures x in a[1..] ==> KeyCmp(key(a[0]), key(x)) < 0
  {
    if x in a[1..] {
      var i :| 0 <= i < |a| - 1 && a[1..][i] == x;
      assert KeyCmp(key(a[0]), key(a[i + 1])) < 0;
    }
    if x in a && x != a[0] {
      var i :| 0 <= i < |a| && a[i] == x;
      assert a[1..][i - 1] == x;
    }
  }
}

/** The hash table of the dictionary on values: bucket heads stored inline, overflow entries in chains. */
module DictTable {
  import opened DictPool

  /** `addr` is the heap address of an overflow entry; it means nothing for a head. */
  datatype Entry = Entry(name: Ptr, len: nat, addr: nat)

  datatype Bucket = Empty | Chain(head: Entry, overflow: seq<Entry>)

  function Entries(b: Bucket): seq<Entry> {
    if b.Empty? then [] else [b.head] + b.overflow
  }

  function Overflow(b: Bucket): seq<Entry> {
    if b.Empty? then [] else b.overflow
  }

  // ---------------------------------------------------------------- keys

  function SumBytes(s: Bytes): nat {
    if s == [] then 0 else s[0] + SumBytes(s[1..])
  }

  /** xmlDictComputeKey: first byte times 32, the last byte of a long name, and bytes 1 to 9. At most
      255 * 32 + 10 * 255, so the unsigned long never wraps. */
  function ComputeKey(name: Bytes, len: nat): nat
    requires name != [] && len <= |name|
  {
    name[0] * 32
    + (if len > 10 then name[len - 1] else 0)
    + (if len > 1 then SumBytes(name[1..if len > 10 then 10 else len]) else 0)
  }

  /** For a non-empty name only the name itself enters the key, not what follows it in memory. */
  lemma KeyOfPrefix(name: Bytes, len: nat)
    requires 0 < len <= |name|
    ensures ComputeKey(name, len) == ComputeKey(name[..len], len)
  {
    if len > 1 {
      var n := if len > 10 then 10 else len;
      assert name[..len][1..n] == name[1..n] by { assert n <= len; }
    }
  }

  /** For an empty name the key is read from the byte behind the pointer: two empty names meet in one bucket of a
      table of 128, 1024 or 8192 exactly if these bytes agree modulo 4, modulo 32, or altogether. */
  lemma EmptyNameKeyDependsOnMemory(a: Bytes, b: Bytes)
    requires a != [] && b != []
    ensures ComputeKey(a, 0) % 128 == ComputeKey(b, 0) % 128 <==> a[0] % 4 == b[0] % 4
    ensures ComputeKey(a, 0) % 1024 == ComputeKey(b, 0) % 1024 <==> a[0] % 32 == b[0] % 32
    ensures ComputeKey(a, 0) % 8192 == ComputeKey(b, 0) % 8192 <==> a[0] == b[0]
  {
    EmptyKey(a);
    EmptyKey(b);
  }

  lemma EmptyKey(a: Bytes)
    requires a != []
    ensures ComputeKey(a, 0) % 128 == 32 * (a[0] as int % 4)
    ensures ComputeKey(a, 0) % 1024 == 32 * (a[0] as int % 32)
    ensures ComputeKey(a, 0) % 8192 == 32 * a[0] as int
  {
    Times32By128(a[0] as int);
    Times32By1024(a[0] as int);
  }

  lemma Times32By128(n: nat)
    ensures (n * 32) % 128 == 32 * (n % 4)
  {
    assert n * 32 == 128 * (n / 4) + 32 * (n % 4);
  }

  lemma Times32By1024(n: nat)
    ensures (n * 32) % 1024 == 32 * (n % 32)
  {
    assert n * 32 == 1024 * (n / 32) + 32 * (n % 32);
  }

  /** The bucket a name belongs to. */
  function Home(s: Bytes, size: nat): nat
    requires s != [] && size > 0
  {
    ComputeKey(s, |s|) % size
  }

  /** A larger table whose size is a multiple of the old one keeps names of different buckets apart. */
  lemma HomesStayApart(s: Bytes, size: nat, factor: nat)
    requires s != [] && size > 0 && factor > 0
    ensures factor * size > 0 && Home(s, factor * size) % size == Home(s, size)
  {
    NestedMod(ComputeKey(s, |s|), size, factor);
  }

  lemma NestedMod(k: nat, size: nat, factor: nat)
    requires size > 0 && factor > 0
    ensures factor * size > 0 && (k % (factor * size)) % size == k % size
  {
    MulPositive(factor, size);
    var big := factor * size;
    var q, r := k / big, k % big;
    assert k == q * big + r;
    MulAssoc(q, factor, size);
    ModShift(r, q * factor, size);
  }

  lemma MulPositive(a: nat, b: nat)
    requires a > 0 && b > 0
    ensures a * b > 0
  {
  }

  lemma MulAssoc(a: nat, b: nat, c: nat)
    ensures a * (b * c) == (a * b) * c
  {
  }

  lemma ModShift(r: nat, m: nat, size: nat)
    requires size > 0
    ensures (m * size + r) % size == r % size
  {
    var x := m * size + r;
    var d, e := x / size, r / size;
    assert x == d * size + x % size && r == e * size + r % size;
    assert (d - m - e) * size == r % size - x % size by { Factor(d, m, e, size); }
    Multiple(d - m - e, size);
  }

  lemma Factor(d: int, m: int, e: int, size: int)
    ensures (d - m - e) * size == d * size - m * size - e * size
  {
  }

  lemma Multiple(k: int, size: int)
    requires size > 0
    ensures k >= 1 ==> k * size >= size
    ensures k <= -1 ==> k * size <= -size
  {
  }

  // ---------------------------------------------------------------- contents

  /** How often a name occurs among the entries, and an address among the overflow entries. */
  ghost function NameCount(es: seq<Entry>, p: Ptr): nat {
    if es == [] then 0 else (if es[0].name == p then 1 else 0) + NameCount(es[1..], p)
  }

  ghost function AddrCount(es: seq<Entry>, a: nat): nat {
    if es == [] then 0 else (if es[0].addr == a then 1 else 0) + AddrCount(es[1..], a)
  }

  ghost function Total(bs: seq<Bucket>, count: Bucket -> nat): nat {
    if bs == [] then 0 else count(bs[0]) + Total(bs[1..], count)
  }

  ghost function Names(bs: seq<Bucket>, p: Ptr): nat {
    Total(bs, b => NameCount(Entries(b), p))
  }

  ghost function Nodes(bs: seq<Bucket>, a: nat): nat {
    Total(bs, b => AddrCount(Overflow(b), a))
  }

  /** The number of entries. */
  ghost function Size(bs: seq<Bucket>): nat {
    Total(bs, b => |Entries(b)|)
  }

  lemma {:induction false} TotalUpdate(bs: seq<Bucket>, bs': seq<Bucket>, k: nat, count: Bucket -> nat)
    requires k < |bs| == |bs'| && forall i :: 0 <= i < |bs| && i != k ==> bs[i] == bs'[i]
    ensures Total(bs', count) == Total(bs, count) - count(bs[k]) + count(bs'[k])
  {
    if k == 0 {
      assert bs'[1..] == bs[1..];
    } else {
      TotalUpdate(bs[1..], bs'[1..], k - 1, count);
    }
  }

  /** A table with one bucket replaced differs by the counts of that bucket. */
  lemma CountsUpdate(bs: seq<Bucket>, k: nat, b: Bucket, p: Ptr, a: nat)
    requires k < |bs|
    ensures Names(bs[k := b], p) == Names(bs, p) - NameCount(Entries(bs[k]), p) + NameCount(Entries(b), p)
    ensures Nodes(bs[k := b], a) == Nodes(bs, a) - AddrCount(Overflow(bs[k]), a) + AddrCount(Overflow(b), a)
  {
    TotalUpdate(bs, bs[k := b], k, b => NameCount(Entries(b), p));
    TotalUpdate(bs, bs[k := b], k, b => AddrCount(Overflow(b), a));
  }

  lemma {:induction false} NameCounted(es: seq<Entry>, p: Ptr)
    ensures NameCount(es, p) > 0 <==> exists e :: e in es && e.name == p
  {
    if es != [] {
      NameCounted(es[1..], p);
      assert es == [es[0]] + es[1..];
    }
  }

  lemma {:induction false} StrangerNotCounted(bs: seq<Bucket>, text: Text, p: Ptr)
    requires p !in text && forall k, e :: 0 <= k < |bs| && e in Entries(bs[k]) ==> e.name in text
    ensures Names(bs, p) == 0
  {
    if bs != [] {
      NameCounted(Entries(bs[0]), p);
      StrangerNotCounted(bs[1..], text, p);
    }
  }

  lemma NameInBucket(bs: seq<Bucket>, p: Ptr) returns (k: nat)
    requires Names(bs, p) > 0
    ensures k < |bs| && exists e :: e in Entries(bs[k]) && e.name == p
  {
    k := PositiveAddend(bs, b => NameCount(Entries(b), p));
    NameCounted(Entries(bs[k]), p);
  }

  lemma {:induction false} PositiveAddend(bs: seq<Bucket>, count: Bucket -> nat) returns (k: nat)
    requires Total(bs, count) > 0
    ensures k < |bs| && count(bs[k]) > 0
  {
    if count(bs[0]) > 0 {
      k := 0;
    } else {
      k := PositiveAddend(bs[1..], count);
      k := k + 1;
    }
  }

  ghost predicate EntryOk(e: Entry, text: Text) {
    e.name in text && e.len == |text[e.name]| > 0
  }

  ghost predicate AllOk(es: seq<Entry>, text: Text) {
    forall i :: 0 <= i < |es| ==> EntryOk(es[i], text)
  }

  /** Every entry is a stored string, in its home bucket. */
  ghost predicate Placed(bs: seq<Bucket>, text: Text) {
    forall k, e :: 0 <= k < |bs| && e in Entries(bs[k]) ==> EntryOk(e, text) && Home(text[e.name], |bs|) == k
  }

  /** Every stored string has exactly one entry. */
  ghost predicate Complete(bs: seq<Bucket>, text: Text) {
    forall p {:trigger Names(bs, p)} :: p in text ==> Names(bs, p) == 1
  }

  /** Where each string is: the inverse of `text`, so no string is stored twice. */
  type Index = map<Bytes, Ptr>

  ghost predicate Inverse(index: Index, text: Text) {
    && (forall s {:trigger index[s]} :: s in index ==> index[s] in text && text[index[s]] == s)
    && (forall p {:trigger text[p]} :: p in text ==> text[p] in index && index[text[p]] == p)
  }

  lemma InverseInsert(index: Index, text: Text, s: Bytes, p: Ptr)
    requires Inverse(index, text) && s !in index && p !in text
    ensures Inverse(index[s := p], text[p := s])
  {
  }

  /** A stored string is found in its home bucket. */
  lemma FoundAtHome(bs: seq<Bucket>, text: Text, p: Ptr)
    requires Placed(bs, text) && Complete(bs, text) && p in text
    ensures text[p] != [] && |bs| > 0
    ensures exists e :: e in Entries(bs[Home(text[p], |bs|)]) && e.name == p
  {
    assert Names(bs, p) == 1;
    var k := NameInBucket(bs, p);
    var e :| e in Entries(bs[k]) && e.name == p;
    assert EntryOk(e, text);
  }

  // ---------------------------------------------------------------- insertion

  /** A new entry at the end of its bucket. */
  function Attach(b: Bucket, e: Entry): Bucket {
    if b.Empty? then Chain(e, []) else b.(overflow := b.overflow + [e])
  }

  lemma AttachEntries(b: Bucket, e: Entry)
    ensures Entries(Attach(b, e)) == Entries(b) + [e]
    ensures Overflow(Attach(b, e)) == Overflow(b) + (if b.Empty? then [] else [e])
  {
  }

  lemma InsertPlaced(bs: seq<Bucket>, text: Text, e: Entry, s: Bytes)
    requires Placed(bs, text) && |bs| > 0
    requires e.name !in text && s != [] && e.len == |s|
    ensures Placed(bs[Home(s, |bs|) := Attach(bs[Home(s, |bs|)], e)], text[e.name := s])
  {
    AttachEntries(bs[Home(s, |bs|)], e);
  }

  lemma InsertCounts(bs: seq<Bucket>, k: nat, e: Entry, p: Ptr, a: nat)
    requires k < |bs|
    ensures Names(bs[k := Attach(bs[k], e)], p) == Names(bs, p) + (if p == e.name then 1 else 0)
    ensures Nodes(bs[k := Attach(bs[k], e)], a) == Nodes(bs, a) + (if !bs[k].Empty? && a == e.addr then 1 else 0)
  {
    var b := Attach(bs[k], e);
    AttachEntries(bs[k], e);
    CountsUpdate(bs, k, b, p, a);
    NameAppend(Entries(bs[k]), [e], p);
    AddrAppend(Overflow(bs[k]), [e], a);
  }

  lemma InsertComplete(bs: seq<Bucket>, text: Text, e: Entry, s: Bytes, k: nat)
    requires Placed(bs, text) && Complete(bs, text) && k < |bs|
    requires e.name !in text
    ensures Complete(bs[k := Attach(bs[k], e)], text[e.name := s])
  {
    StrangerNotCounted(bs, text, e.name);
    forall p | p in text || p == e.name
      ensures Names(bs[k := Attach(bs[k], e)], p) == 1
    {
      InsertCounts(bs, k, e, p, 0);
    }
  }

  // ---------------------------------------------------------------- growth

  /** The heads of all buckets, and the overflow entries of all buckets, in table order. */
  ghost function Heads(bs: seq<Bucket>): seq<Entry> {
    if bs == [] then [] else (if bs[0].Empty? then [] else [bs[0].head]) + Heads(bs[1..])
  }

  ghost function Tails(bs: seq<Bucket>): seq<Entry> {
    if bs == [] then [] else Overflow(bs[0]) + Tails(bs[1..])
  }

  lemma AllOkSplits(a: seq<Entry>, b: seq<Entry>, text: Text)
    requires AllOk(a + b, text)
    ensures AllOk(a, text) && AllOk(b, text)
  {
    forall i | 0 <= i < |b|
      ensures EntryOk(b[i], text)
    {
      assert (a + b)[|a| + i] == b[i];
    }
    forall i | 0 <= i < |a|
      ensures EntryOk(a[i], text)
    {
      assert (a + b)[i] == a[i];
    }
  }

  lemma HeadsCons(bs: seq<Bucket>, i: nat, text: Text)
    requires i < |bs| && AllOk(Heads(bs[i..]), text)
    ensures bs[i].Empty? ==> Heads(bs[i..]) == Heads(bs[i + 1..])
    ensures bs[i].Chain? ==>
      && Heads(bs[i..]) == [bs[i].head] + Heads(bs[i + 1..])
      && Heads(bs[i..])[0] == bs[i].head && Heads(bs[i..])[1..] == Heads(bs[i + 1..])
    ensures AllOk(Heads(bs[i + 1..]), text)
  {
    assert bs[i..][1..] == bs[i + 1..];
    AllOkSplits(if bs[i].Empty? then [] else [bs[i].head], Heads(bs[i + 1..]), text);
  }

  lemma TailsCons(bs: seq<Bucket>, i: nat, text: Text)
    requires i < |bs| && AllOk(Tails(bs[i..]), text)
    ensures Tails(bs[i..]) == Overflow(bs[i]) + Tails(bs[i + 1..])
    ensures AllOk(Tails(bs[i + 1..]), text)
  {
    assert bs[i..][1..] == bs[i + 1..];
    AllOkSplits(Overflow(bs[i]), Tails(bs[i + 1..]), text);
  }

  lemma {:induction false} NameAppend(x: seq<Entry>, y: seq<Entry>, p: Ptr)
    ensures NameCount(x + y, p) == NameCount(x, p) + NameCount(y, p)
  {
    if x == [] {
      assert x + y == y;
    } else {
      assert (x + y)[1..] == x[1..] + y;
      NameAppend(x[1..], y, p);
    }
  }

  lemma {:induction false} AddrAppend(x: seq<Entry>, y: seq<Entry>, a: nat)
    ensures AddrCount(x + y, a) == AddrCount(x, a) + AddrCount(y, a)
  {
    if x == [] {
      assert x + y == y;
    } else {
      assert (x + y)[1..] == x[1..] + y;
      AddrAppend(x[1..], y, a);
    }
  }

  lemma {:induction false} NamesAreHeadsAndTails(bs: seq<Bucket>, p: Ptr)
    ensures Names(bs, p) == NameCount(Heads(bs), p) + NameCount(Tails(bs), p)
  {
    if bs != [] {
      NamesAreHeadsAndTails(bs[1..], p);
      NameAppend(if bs[0].Empty? then [] else [bs[0].head], Heads(bs[1..]), p);
      NameAppend(Overflow(bs[0]), Tails(bs[1..]), p);
      if bs[0].Chain? { NameAppend([bs[0].head], bs[0].overflow, p); }
    }
  }

  lemma {:induction false} NodesAreTails(bs: seq<Bucket>, a: nat)
    ensures Nodes(bs, a) == AddrCount(Tails(bs), a)
  {
    if bs != [] {
      NodesAreTails(bs[1..], a);
      AddrAppend(Overflow(bs[0]), Tails(bs[1..]), a);
    }
  }

  lemma {:induction false} MemberSplits(bs: seq<Bucket>, text: Text, size: nat, first: nat)
    requires size > 0 && first + |bs| <= size
    requires forall k, e :: 0 <= k < |bs| && e in Entries(bs[k]) ==>
               EntryOk(e, text) && Home(text[e.name], size) == first + k
    ensures AllOk(Heads(bs), text) && AllOk(Tails(bs), text)
  {
    if bs != [] {
      MemberSplits(bs[1..], text, size, first + 1);
    }
  }

  /** An entry that goes back into the table becomes the head of an empty bucket, or else follows the head. */
  function Put(b: Bucket, e: Entry): Bucket {
    if b.Empty? then Chain(e, []) else Chain(b.head, [e] + b.overflow)
  }

  ghost function PutAll(bs: seq<Bucket>, es: seq<Entry>, text: Text): (r: seq<Bucket>)
    requires |bs| > 0 && AllOk(es, text)
    ensures |r| == |bs|
    decreases |es|
  {
    if es == [] then bs
    else
      var k := Home(text[es[0].name], |bs|);
      PutAll(bs[k := Put(bs[k], es[0])], es[1..], text)
  }

  lemma PutAllStep(bs: seq<Bucket>, es: seq<Entry>, text: Text)
    requires |bs| > 0 && AllOk(es, text) && es != []
    ensures
      var k := Home(text[es[0].name], |bs|);
      AllOk(es[1..], text) && PutAll(bs, es, text) == PutAll(bs[k := Put(bs[k], es[0])], es[1..], text)
  {
  }

  lemma PutPlaced(bs: seq<Bucket>, e: Entry, text: Text)
    requires Placed(bs, text) && |bs| > 0 && EntryOk(e, text)
    ensures
      var k := Home(text[e.name], |bs|);
      Placed(bs[k := Put(bs[k], e)], text)
  {
  }

  lemma PutCounts(bs: seq<Bucket>, k: nat, e: Entry, p: Ptr, a: nat)
    requires k < |bs|
    ensures Names(bs[k := Put(bs[k], e)], p) == Names(bs, p) + (if p == e.name then 1 else 0)
    ensures Nodes(bs[k := Put(bs[k], e)], a) == Nodes(bs, a) + (if !bs[k].Empty? && a == e.addr then 1 else 0)
  {
    var b := Put(bs[k], e);
    CountsUpdate(bs, k, b, p, a);
  }

  /** Putting entries back adds exactly them, each in its home bucket. */
  lemma {:induction false} PutAllPlaced(bs: seq<Bucket>, es: seq<Entry>, text: Text)
    requires Placed(bs, text) && |bs| > 0 && AllOk(es, text)
    ensures Placed(PutAll(bs, es, text), text)
    decreases |es|
  {
    if es != [] {
      var k := Home(text[es[0].name], |bs|);
      PutPlaced(bs, es[0], text);
      PutAllPlaced(bs[k := Put(bs[k], es[0])], es[1..], text);
    }
  }

  lemma {:induction false} PutAllNames(bs: seq<Bucket>, es: seq<Entry>, text: Text, p: Ptr)
    requires |bs| > 0 && AllOk(es, text)
    ensures Names(PutAll(bs, es, text), p) == Names(bs, p) + NameCount(es, p)
    decreases |es|
  {
    if es != [] {
      var k := Home(text[es[0].name], |bs|);
      PutCounts(bs, k, es[0], p, 0);
      PutAllNames(bs[k := Put(bs[k], es[0])], es[1..], text, p);
    }
  }

  lemma {:induction false} PutAllSize(bs: seq<Bucket>, es: seq<Entry>, text: Text)
    requires |bs| > 0 && AllOk(es, text)
    ensures Size(PutAll(bs, es, text)) == Size(bs) + |es|
    decreases |es|
  {
    if es != [] {
      var k := Home(text[es[0].name], |bs|);
      TotalUpdate(bs, bs[k := Put(bs[k], es[0])], k, b => |Entries(b)|);
      PutAllSize(bs[k := Put(bs[k], es[0])], es[1..], text);
    }
  }

  lemma {:induction false} SizeIsHeadsAndTails(bs: seq<Bucket>)
    ensures Size(bs) == |Heads(bs)| + |Tails(bs)|
  {
    if bs != [] { SizeIsHeadsAndTails(bs[1..]); }
  }

  lemma {:induction false} EmptySize(bs: seq<Bucket>)
    requires forall k :: 0 <= k < |bs| ==> bs[k] == Empty
    ensures Size(bs) == 0
  {
    if bs != [] { EmptySize(bs[1..]); }
  }

  function EmptyTable(size: nat): (r: seq<Bucket>)
    ensures |r| == size && forall k :: 0 <= k < size ==> r[k] == Empty
  {
    seq(size, _ => Empty)
  }

  lemma {:induction false} EmptyCounts(bs: seq<Bucket>, p: Ptr, a: nat)
    requires forall k :: 0 <= k < |bs| ==> bs[k] == Empty
    ensures Names(bs, p) == 0 && Nodes(bs, a) == 0
  {
    if bs != [] { EmptyCounts(bs[1..], p, a); }
  }

  /** The table that xmlDictGrow builds: first the heads, then the overflow entries. */
  ghost function Rehashed(bs: seq<Bucket>, text: Text, size: nat): seq<Bucket>
    requires Placed(bs, text) && |bs| > 0 && size > 0
  {
    MemberSplits(bs, text, |bs|, 0);
    PutAll(PutAll(EmptyTable(size), Heads(bs), text), Tails(bs), text)
  }

  /** Rehashing keeps the entries: each stored string has exactly one entry again, in its new home bucket. */
  lemma RehashKeeps(bs: seq<Bucket>, text: Text, size: nat)
    requires Placed(bs, text) && Complete(bs, text) && |bs| > 0 && size > 0
    ensures |Rehashed(bs, text, size)| == size
    ensures Placed(Rehashed(bs, text, size), text) && Complete(Rehashed(bs, text, size), text)
    ensures Size(Rehashed(bs, text, size)) == Size(bs)
  {
    MemberSplits(bs, text, |bs|, 0);
    var empty := EmptyTable(size);
    var half := PutAll(empty, Heads(bs), text);
    EmptySize(empty);
    SizeIsHeadsAndTails(bs);
    PutAllSize(empty, Heads(bs), text);
    PutAllSize(half, Tails(bs), text);
    PutAllPlaced(empty, Heads(bs), text);
    PutAllPlaced(half, Tails(bs), text);
    forall p | p in text
      ensures Names(PutAll(half, Tails(bs), text), p) == 1
    {
      NamesAreHeadsAndTails(bs, p);
      EmptyCounts(empty, p, 0);
      PutAllNames(empty, Heads(bs), text, p);
      PutAllNames(half, Tails(bs), text, p);
    }
  }

  // ---------------------------------------------------------------- no collision among the heads

  /** Every occupied bucket holds the head of an old bucket below `i`, and nothing else. */
  ghost predicate HeadsBelow(bs: seq<Bucket>, text: Text, size: nat, i: nat)
    requires size > 0
  {
    forall k :: 0 <= k < |bs| && bs[k].Chain? ==>
      bs[k].overflow == [] && EntryOk(bs[k].head, text) && Home(text[bs[k].head.name], size) < i
  }

  /** The slot of the next head is free, because the new size is a multiple of the old one. */
  lemma HeadSlotFree(was: seq<Bucket>, bs: seq<Bucket>, text: Text, factor: nat, i: nat)
    requires factor > 0 && |bs| == factor * |was| && i < |was| && was[i].Chain?
    requires Placed(was, text) && Placed(bs, text) && HeadsBelow(bs, text, |was|, i)
    ensures
      var e := was[i].head;
      && EntryOk(e, text) && |bs| > 0
      && bs[Home(text[e.name], |bs|)] == Empty
      && HeadsBelow(bs[Home(text[e.name], |bs|) := Chain(e, [])], text, |was|, i + 1)
  {
    var e := was[i].head;
    assert e in Entries(was[i]);
    HomesStayApart(text[e.name], |was|, factor);
    var k := Home(text[e.name], |bs|);
    if bs[k].Chain? {
      var h := bs[k].head;
      assert h in Entries(bs[k]);
      HomesStayApart(text[h.name], |was|, factor);
    }
  }

  // ---------------------------------------------------------------- live overflow entries

  /** The allocated overflow entries are those of the table and those of `pending`, each once. */
  ghost predicate Accounted(bs: seq<Bucket>, pending: seq<Entry>, live: set<nat>) {
    forall a :: Nodes(bs, a) + AddrCount(pending, a) == if a in live then 1 else 0
  }

  /** Putting one pending entry back frees it if it becomes a head; it is allocated until then. */
  lemma PutAccounted(bs: seq<Bucket>, pending: seq<Entry>, live: set<nat>, k: nat)
    requires k < |bs| && pending != [] && Accounted(bs, pending, live)
    ensures
      var e := pending[0];
      && e.addr in live
      && Accounted(bs[k := Put(bs[k], e)], pending[1..], if bs[k].Empty? then live - {e.addr} else live)
  {
    var e := pending[0];
    assert Nodes(bs, e.addr) + AddrCount(pending, e.addr) == if e.addr in live then 1 else 0;
    forall a
      ensures Nodes(bs[k := Put(bs[k], e)], a) == Nodes(bs, a) + (if !bs[k].Empty? && a == e.addr then 1 else 0)
    {
      PutCounts(bs, k, e, e.name, a);
    }
    forall a
      ensures Nodes(bs[k := Put(bs[k], e)], a) + AddrCount(pending[1..], a)
           == if a in (if bs[k].Empty? then live - {e.addr} else live) then 1 else 0
    {
      assert Nodes(bs, a) + AddrCount(pending, a) == if a in live then 1 else 0;
    }
  }

  lemma {:induction false} NoOverflowNodes(bs: seq<Bucket>, a: nat)
    requires forall k :: 0 <= k < |bs| ==> Overflow(bs[k]) == []
    ensures Nodes(bs, a) == 0
  {
    if bs != [] { NoOverflowNodes(bs[1..], a); }
  }

  // ---------------------------------------------------------------- the table as a whole

  /** The table holds exactly the strings of `text`, in one of the three reachable sizes, and `live` are the
      addresses of its overflow entries. */
  ghost predicate TableOk(bs: seq<Bucket>, text: Text, nbElems: nat, live: set<nat>, nextAddr: nat) {
    && (|bs| == 128 || |bs| == 1024 || |bs| == 8192)
    && Placed(bs, text) && Complete(bs, text) && nbElems == Size(bs)
    && Accounted(bs, [], live) && forall a :: a in live ==> a < nextAddr
  }

  ghost function Flat(bs: seq<Bucket>): seq<Entry> {
    if bs == [] then [] else Entries(bs[0]) + Flat(bs[1..])
  }

  lemma {:induction false} FlatCounts(bs: seq<Bucket>, p: Ptr)
    ensures NameCount(Flat(bs), p) == Names(bs, p)
  {
    if bs != [] {
      FlatCounts(bs[1..], p);
      NameAppend(Entries(bs[0]), Flat(bs[1..]), p);
    }
  }

  lemma {:induction false} FlatSize(bs: seq<Bucket>)
    ensures |Flat(bs)| == Size(bs)
  {
    if bs != [] { FlatSize(bs[1..]); }
  }

  ghost function NamesOf(es: seq<Entry>): (r: set<Ptr>)
    ensures forall e :: e in es ==> e.name in r
    ensures forall p :: p in r ==> exists e :: e in es && e.name == p
  {
    set e | e in es :: e.name
  }

  /** Entries of distinct names are as many as their names. */
  lemma {:induction false} DistinctNames(es: seq<Entry>)
    requires forall p :: NameCount(es, p) <= 1
    ensures |NamesOf(es)| == |es|
  {
    if es != [] {
      var rest := es[1..];
      assert es == [es[0]] + rest;
      forall p
        ensures NameCount(rest, p) <= 1
      {
        assert NameCount(es, p) <= 1;
      }
      DistinctNames(rest);
      assert NameCount(es, es[0].name) <= 1;
      NameCounted(rest, es[0].name);
      assert NamesOf(es) == NamesOf(rest) + {es[0].name};
    } else {
      assert NamesOf(es) == {};
    }
  }

  /** A table that holds each string once has as many entries as there are strings. */
  lemma EntriesAreStrings(bs: seq<Bucket>, text: Text)
    requires Placed(bs, text) && Complete(bs, text)
    ensures Size(bs) == |text|
  {
    var es := Flat(bs);
    forall p
      ensures NameCount(es, p) == if p in text then 1 else 0
    {
      FlatCounts(bs, p);
      if p in text {
        assert Names(bs, p) == 1;
      } else {
        StrangerNotCounted(bs, text, p);
      }
    }
    DistinctNames(es);
    forall p
      ensures p in NamesOf(es) <==> p in text
    {
      NameCounted(es, p);
    }
    assert NamesOf(es) == text.Keys;
    FlatSize(bs);
  }

  lemma {:induction false} InverseSize(index: Index, text: Text)
    requires Inverse(index, text)
    ensures |index| == |text|
    decreases |index|
  {
    if index == map[] {
      assert text == map[] by {
        if p :| p in text { assert text[p] in index; }
      }
    } else {
      var s :| s in index;
      var p := index[s];
      var fewer, less := index - {s}, text - {p};
      assert fewer.Keys == index.Keys - {s} && less.Keys == text.Keys - {p};
      InverseSize(fewer, less);
    }
  }

  /** A name that its home bucket does not hold is nowhere in the table. */
  lemma AbsentFromBucket(bs: seq<Bucket>, text: Text, s: Bytes)
    requires Placed(bs, text) && Complete(bs, text) && |bs| > 0 && s != []
    requires AllOk(Entries(bs[Home(s, |bs|)]), text)
    requires
      var es := Entries(bs[Home(s, |bs|)]);
      forall i :: 0 <= i < |es| ==> text[es[i].name] != s
    ensures forall p {:trigger text[p]} :: p in text ==> text[p] != s
  {
    forall p | p in text
      ensures text[p] != s
    {
      FoundAtHome(bs, text, p);
    }
  }

  lemma BucketOk(bs: seq<Bucket>, text: Text, k: nat)
    requires Placed(bs, text) && k < |bs|
    ensures AllOk(Entries(bs[k]), text)
  {
  }

  /** The insertion of xmlDictLookup keeps the table in order. */
  lemma InsertOk(bs: seq<Bucket>, text: Text, nbElems: nat, live: set<nat>, nextAddr: nat, e: Entry, s: Bytes)
    requires TableOk(bs, text, nbElems, live, nextAddr)
    requires e.name !in text && s != [] && e.len == |s| && e.addr == nextAddr
    ensures
      var k := Home(s, |bs|);
      TableOk(bs[k := Attach(bs[k], e)], text[e.name := s], nbElems + 1,
              if bs[k].Empty? then live else live + {nextAddr}, nextAddr + 1)
  {
    var k := Home(s, |bs|);
    InsertPlaced(bs, text, e, s);
    InsertComplete(bs, text, e, s, k);
    InsertAccounted(bs, live, k, e);
    InsertSize(bs, e, k);
  }

  lemma InsertSize(bs: seq<Bucket>, e: Entry, k: nat)
    requires k < |bs|
    ensures Size(bs[k := Attach(bs[k], e)]) == Size(bs) + 1
  {
    AttachEntries(bs[k], e);
    TotalUpdate(bs, bs[k := Attach(bs[k], e)], k, b => |Entries(b)|);
  }

  lemma InsertAccounted(bs: seq<Bucket>, live: set<nat>, k: nat, e: Entry)
    requires k < |bs| && Accounted(bs, [], live) && e.addr !in live
    ensures Accounted(bs[k := Attach(bs[k], e)], [], if bs[k].Empty? then live else live + {e.addr})
  {
    forall a
      ensures Nodes(bs[k := Attach(bs[k], e)], a) + AddrCount([], a)
           == if a in (if bs[k].Empty? then live else live + {e.addr}) then 1 else 0
    {
      InsertCounts(bs, k, e, e.name, a);
      assert Nodes(bs, a) + AddrCount([], a) == if a in live then 1 else 0;
    }
  }

  /** Before the second loop of xmlDictGrow all allocated entries are still to be moved. */
  lemma TailsAccounted(was: seq<Bucket>, half: seq<Bucket>, live: set<nat>)
    requires Accounted(was, [], live)
    requires forall k :: 0 <= k < |half| ==> Overflow(half[k]) == []
    ensures Accounted(half, Tails(was), live)
  {
    forall a
      ensures Nodes(half, a) + AddrCount(Tails(was), a) == if a in live then 1 else 0
    {
      NoOverflowNodes(half, a);
      NodesAreTails(was, a);
      assert Nodes(was, a) + AddrCount([], a) == if a in live then 1 else 0;
    }
  }

  /** A table without entries has no overflow entries. */
  lemma {:induction false} EmptyNoNodes(bs: seq<Bucket>, a: nat)
    requires Size(bs) == 0
    ensures Nodes(bs, a) == 0
  {
    if bs != [] { EmptyNoNodes(bs[1..], a); }
  }

  lemma OverflowPending(bs: seq<Bucket>, live: set<nat>)
    requires bs != [] && Accounted(bs, [], live)
    ensures Accounted(bs[1..], Overflow(bs[0]), live)
  {
    forall a
      ensures Nodes(bs[1..], a) + AddrCount(Overflow(bs[0]), a) == if a in live then 1 else 0
    {
      assert Nodes(bs, a) + AddrCount([], a) == if a in live then 1 else 0;
    }
  }

  /** The next pending entry is allocated, and freeing it leaves exactly the others allocated. */
  lemma FreeOne(bs: seq<Bucket>, pending: seq<Entry>, live: set<nat>)
    requires pending != [] && Accounted(bs, pending, live)
    ensures pending[0].addr in live && Accounted(bs, pending[1..], live - {pending[0].addr})
  {
    var x := pending[0].addr;
    assert Nodes(bs, x) + AddrCount(pending, x) == if x in live then 1 else 0;
    forall a
      ensures Nodes(bs, a) + AddrCount(pending[1..], a) == if a in live - {x} then 1 else 0
    {
      assert Nodes(bs, a) + AddrCount(pending, a) == if a in live then 1 else 0;
    }
  }

  lemma AllFreed(bs: seq<Bucket>, live: set<nat>)
    requires Size(bs) == 0 && Accounted(bs, [], live)
    ensures live == {}
  {
    forall a
      ensures a !in live
    {
      EmptyNoNodes(bs, a);
      assert Nodes(bs, a) + AddrCount([], a) == if a in live then 1 else 0;
    }
  }
}

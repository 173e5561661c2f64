/** The dictionary of interned strings. */
module Dict {
  import opened XmlString
  import opened DictPool
  import opened DictTable

  const MAX_HASH_LEN := 4
  const MIN_DICT_SIZE := 128
  const MAX_DICT_HASH := 8 * 2048

  /** The bytes an entry refers to. */
  function ReadName(e: Entry, image: Image): (s: Bytes)
    requires e.name.pool in image && e.name.off + e.len <= |image[e.name.pool]|
  {
    image[e.name.pool][e.name.off..e.name.off + e.len]
  }

  lemma ReadsText(e: Entry, image: Image, text: Text)
    requires TextOk(image, text) && EntryOk(e, text)
    ensures e.name.pool in image && e.name.off + e.len <= |image[e.name.pool]| && ReadName(e, image) == text[e.name]
  {
    assert Denotes(image, e.name, text[e.name]);
  }

  /** The walk down one chain: it stops at the first entry with the same length and bytes, and counts the
      entries it has passed before the last one. */
  method SearchChain(es: seq<Entry>, name: Bytes, len: nat, nbi0: nat, image: Image, ghost text: Text)
    returns (found: Option<Ptr>, nbi: nat)
    requires TextOk(image, text) && AllOk(es, text) && len <= |name|
    ensures found.Some? ==> found.value in text && text[found.value] == name[..len]
    ensures found.None? ==> forall i :: 0 <= i < |es| ==> text[es[i].name] != name[..len]
  {
    nbi := nbi0;
    for i := 0 to |es|
      invariant forall j :: 0 <= j < i ==> text[es[j].name] != name[..len]
    {
      ReadsText(es[i], image, text);
      if es[i].len == len && ReadName(es[i], image) == name[..len] {
        return Some(es[i].name), nbi;
      }
      if i + 1 < |es| {
        nbi := nbi + 1;
      }
    }
    found := None;
  }

  // ---------------------------------------------------------------- xmlDictGrow

  /** The new bucket of the next head is still free, so the copy overwrites nothing. */
  method CopyHead(was: seq<Bucket>, i: nat, table: array<Bucket>, ghost factor: nat,
                  image: Image, ghost text: Text)
    requires TextOk(image, text) && factor > 0 && table.Length == factor * |was|
    requires i < |was| && was[i].Chain? && Placed(was, text)
    requires Placed(table[..], text) && HeadsBelow(table[..], text, |was|, i)
    modifies table
    ensures table.Length > 0 && EntryOk(was[i].head, text)
    ensures
      var e := was[i].head;
      var key := Home(text[e.name], table.Length);
      && table[..] == old(table[..])[key := Put(old(table[..])[key], e)]
      && Placed(table[..], text) && HeadsBelow(table[..], text, |was|, i + 1)
  {
    var e := was[i].head;
    HeadSlotFree(was, table[..], text, factor, i);
    PutPlaced(table[..], e, text);
    ReadsText(e, image, text);
    var s := ReadName(e, image);
    var key := ComputeKey(s, e.len) % table.Length;
    ghost var before := table[..];
    table[key] := Chain(e, []);
    assert table[..] == before[key := Put(before[key], e)];
  }

  /** One step of the first loop of xmlDictGrow. */
  method MoveHead(was: seq<Bucket>, i: nat, table: array<Bucket>, ghost factor: nat,
                  image: Image, ghost text: Text)
    requires TextOk(image, text) && factor > 0 && table.Length == factor * |was| > 0
    requires i < |was| && Placed(was, text) && AllOk(Heads(was[i..]), text)
    requires Placed(table[..], text) && HeadsBelow(table[..], text, |was|, i)
    modifies table
    ensures AllOk(Heads(was[i + 1..]), text)
    ensures Placed(table[..], text) && HeadsBelow(table[..], text, |was|, i + 1)
    ensures PutAll(table[..], Heads(was[i + 1..]), text) == PutAll(old(table[..]), Heads(was[i..]), text)
  {
    HeadsCons(was, i, text);
    if was[i].Chain? {
      PutAllStep(table[..], Heads(was[i..]), text);
      CopyHead(was, i, table, factor, image, text);
    }
  }

  lemma EmptyHeads(bs: seq<Bucket>, text: Text, size: nat)
    requires bs == EmptyTable(|bs|) && size > 0
    ensures Placed(bs, text) && HeadsBelow(bs, text, size, 0)
  {
  }

  /** The first loop of xmlDictGrow. */
  method MoveHeads(was: seq<Bucket>, table: array<Bucket>, ghost factor: nat, image: Image, ghost text: Text)
    requires TextOk(image, text) && |was| > 0 && factor > 0 && table.Length == factor * |was| > 0
    requires Placed(was, text) && AllOk(Heads(was), text)
    requires table[..] == EmptyTable(table.Length)
    modifies table
    ensures table[..] == PutAll(old(table[..]), Heads(was), text)
    ensures Placed(table[..], text) && forall k :: 0 <= k < table.Length ==> Overflow(table[..][k]) == []
  {
    ghost var empty := table[..];
    assert was[0..] == was;
    EmptyHeads(table[..], text, |was|);
    for i := 0 to |was|
      invariant AllOk(Heads(was[i..]), text)
      invariant Placed(table[..], text) && HeadsBelow(table[..], text, |was|, i)
      invariant PutAll(table[..], Heads(was[i..]), text) == PutAll(empty, Heads(was), text)
    {
      MoveHead(was, i, table, factor, image, text);
    }
  }

  /** One chain of the second loop of xmlDictGrow. An entry that becomes a head is freed; it was allocated. */
  method MoveChain(chain: seq<Entry>, table: array<Bucket>, ghost live0: set<nat>, ghost rest: seq<Entry>,
                   image: Image, ghost text: Text) returns (ghost live: set<nat>)
    requires TextOk(image, text) && table.Length > 0
    requires AllOk(chain + rest, text) && AllOk(rest, text) && Accounted(table[..], chain + rest, live0)
    modifies table
    ensures live <= live0 && Accounted(table[..], rest, live)
    ensures PutAll(table[..], rest, text) == PutAll(old(table[..]), chain + rest, text)
  {
    live := live0;
    ghost var before := table[..];
    assert chain[0..] == chain;
    for j := 0 to |chain|
      invariant AllOk(chain[j..] + rest, text)
      invariant live <= live0 && Accounted(table[..], chain[j..] + rest, live)
      invariant PutAll(table[..], chain[j..] + rest, text) == PutAll(before, chain + rest, text)
    {
      var iter := chain[j];
      ghost var pending := chain[j..] + rest;
      assert pending[0] == iter && pending[1..] == chain[j + 1..] + rest;
      ReadsText(iter, image, text);
      var s := ReadName(iter, image);
      var key := ComputeKey(s, iter.len) % table.Length;
      ghost var now := table[..];
      PutAccounted(now, pending, live, key);
      PutAllStep(now, pending, text);
      if table[key].Empty? {
        table[key] := Chain(iter, []);
        live := live - {iter.addr};
      } else {
        table[key] := Chain(table[key].head, [iter] + table[key].overflow);
      }
      assert table[..] == now[key := Put(now[key], iter)];
    }
    assert chain[|chain|..] + rest == rest;
  }

  /** The second loop of xmlDictGrow. */
  method MoveTails(was: seq<Bucket>, table: array<Bucket>, ghost live0: set<nat>,
                   image: Image, ghost text: Text) returns (ghost live: set<nat>)
    requires TextOk(image, text) && table.Length > 0
    requires AllOk(Tails(was), text) && Accounted(table[..], Tails(was), live0)
    modifies table
    ensures live <= live0 && Accounted(table[..], [], live)
    ensures table[..] == PutAll(old(table[..]), Tails(was), text)
  {
    live := live0;
    ghost var before := table[..];
    assert was[0..] == was;
    for i := 0 to |was|
      invariant AllOk(Tails(was[i..]), text)
      invariant live <= live0 && Accounted(table[..], Tails(was[i..]), live)
      invariant PutAll(table[..], Tails(was[i..]), text) == PutAll(before, Tails(was), text)
    {
      TailsCons(was, i, text);
      live := MoveChain(Overflow(was[i]), table, live, Tails(was[i + 1..]), image, text);
    }
  }

  // ---------------------------------------------------------------- the dictionary

  /** A read-only dictionary that another one inherits from: its table, its pools, and its own parent. */
  datatype Frozen = Frozen(table: seq<Bucket>, image: Image, parent: Option<Frozen>)

  ghost predicate FrozenOk(f: Frozen, text: Text, index: Index) {
    && |f.table| > 0 && TextOk(f.image, text) && Inverse(index, text)
    && Placed(f.table, text) && Complete(f.table, text)
  }

  function FrozenOwns(f: Frozen, str: Ptr): bool {
    (str.pool in f.image && str.off <= |f.image[str.pool]|)
    || (f.parent.Some? && FrozenOwns(f.parent.value, str))
  }

  /** The sub-dictionary, its own sub-dictionary, and so on. */
  function Beneath(f: Option<Frozen>): seq<Frozen>
    decreases f
  {
    if f.None? then [] else [f.value] + Beneath(f.value.parent)
  }

  /** The address lies in the used part of a pool. */
  predicate InImage(image: Image, str: Ptr) {
    str.pool in image && str.off <= |image[str.pool]|
  }

  /** Owned are exactly the addresses in the used part of a pool of one of them. */
  lemma {:induction false} FrozenOwnsPools(f: Frozen, str: Ptr)
    ensures FrozenOwns(f, str) <==> exists g :: g in Beneath(Some(f)) && InImage(g.image, str)
    decreases f
  {
    assert f in Beneath(Some(f));
    if f.parent.Some? {
      FrozenOwnsPools(f.parent.value, str);
    }
  }

  /** xmlDict. The abstract value is `index`, the address of every interned string, with its inverse `text`;
      `image` is what the pools hold, `live` are the addresses of the allocated overflow entries; `subtext` and
      `subindex` belong to the sub-dictionary. */
  class Dict {
    var table: array<Bucket>
    var nbElems: nat
    var strings: seq<Pool>
    var nextAddr: nat
    var subdict: Option<Frozen>
    ghost var Repr: set<object>
    ghost var image: Image
    ghost var text: Text
    ghost var index: Index
    ghost var live: set<nat>
    ghost var subtext: Text
    ghost var subindex: Index

    ghost predicate Valid()
      reads this, Repr
    {
      ReprOk() && PoolsValid() && Separate() && TableValid() && SubOk() && TextOk(image, text)
    }

    ghost predicate ReprOk()
      reads `table, `strings, `Repr
    {
      && this in Repr && table in Repr && Storage(strings) <= Repr
      && this !in Storage(strings) && table !in Storage(strings)
    }

    ghost predicate SubOk()
      reads `subdict, `subtext, `subindex
    {
      if subdict.None? then subindex == map[] else FrozenOk(subdict.value, subtext, subindex)
    }

    /** The address of every string a lookup can return: the inherited ones, and before them the dictionary's own. */
    ghost function Interned(): Index
      reads `index, `subindex
    {
      subindex + index
    }

    /** The sub-dictionary as it was last seen. */
    ghost function Inherited(): (Option<Frozen>, Text, Index)
      reads `subdict, `subtext, `subindex
    {
      (subdict, subtext, subindex)
    }

    /** xmlDictCreate. */
    constructor ()
      ensures Valid() && subdict == None && Interned() == map[] && fresh(Repr)
    {
      var t := NewTable();
      table := t;
      nbElems, strings, nextAddr, subdict := 0, [], 0, None;
      Repr := {this, t};
      image, text, index, live, subtext, subindex := map[], map[], map[], {}, map[], map[];
    }

    /** xmlDictCreateSub: the strings of `sub` are inherited at their addresses. */
    constructor Sub(sub: Dict)
      requires sub.Valid()
      ensures Valid() && subdict.Some? && index == map[] && subindex == sub.index && fresh(Repr)
    {
      var frozen := sub.Freeze();
      ghost var subText, subIndex := sub.text, sub.index;
      var t := NewTable();
      table := t;
      nbElems, strings, nextAddr, subdict := 0, [], 0, Some(frozen);
      Repr := {this, t};
      image, text, index, live, subtext, subindex := map[], map[], map[], {}, subText, subIndex;
    }

    /** xmlDictGrow as xmlDictLookup calls it. Sizes above 8 * 2048 are refused; otherwise the table is rebuilt and
        holds the same entries. */
    method Grow(size: nat) returns (ok: bool)
      requires Valid() && size == 8 * table.Length
      modifies this`table, this`live, this`Repr
      ensures Valid() && Repr == old(Repr) + {table}
      ensures ok <==> 8 <= size <= 8 * 2048
      ensures ok ==> fresh(table) && table[..] == Rehashed(old(table[..]), text, size) && live <= old(live)
      ensures !ok ==> table == old(table) && live == old(live)
    {
      if size < 8 || size > 8 * 2048 {
        return false;
      }
      Rebuild(size);
      ok := true;
    }

    method Rebuild(size: nat)
      requires ReprOk() && PoolsValid() && TableValid() && TextOk(image, text)
      requires size == 8 * table.Length && size <= 8 * 2048
      modifies this`table, this`live, this`Repr
      ensures ReprOk() && TableValid() && Repr == old(Repr) + {table} && fresh(table)
      ensures table[..] == Rehashed(old(table[..]), text, size) && live <= old(live)
    {
      var bigger;
      bigger, live := Rehash(table[..], size, ImageOf(strings), text, nbElems, live, nextAddr);
      table := bigger;
      Repr := Repr + {table};
    }

    /** The search that xmlDictLookup and xmlDictExists share: the own chain first, then the inherited one. */
    method Find(name: Bytes, len: nat) returns (found: Option<Ptr>, nbi: nat)
      requires Valid() && 0 < len <= |name|
      ensures found == if name[..len] in Interned() then Some(Interned()[name[..len]]) else None
    {
      var okey := ComputeKey(name, len);
      KeyOfPrefix(name, len);
      var key := okey % table.Length;
      BucketOk(table[..], text, key);
      found, nbi := SearchChain(Entries(table[key]), name, len, 0, ImageOf(strings), text);
      if found.Some? {
        return;
      }
      AbsentFromBucket(table[..], text, name[..len]);
      if subdict.Some? {
        var f := subdict.value;
        key := okey % |f.table|;
        BucketOk(f.table, subtext, key);
        found, nbi := SearchChain(Entries(f.table[key]), name, len, nbi, f.image, subtext);
        if found.None? {
          AbsentFromBucket(f.table, subtext, name[..len]);
        }
      }
    }

    /** xmlDictExists. */
    method Exists(name: Bytes, len: nat) returns (r: Option<Ptr>)
      requires Valid() && 0 < len <= |name|
      ensures r == if name[..len] in Interned() then Some(Interned()[name[..len]]) else None
    {
      var nbi;
      r, nbi := Find(name, len);
    }

    /** The pools are in order and hold `image`. */
    ghost predicate PoolsValid()
      reads `strings, `image, Storage(strings)
    {
      PoolsOk(strings) && image == ImageOf(strings)
    }

    /** The inherited pools are not among the dictionary's own. */
    ghost predicate Separate()
      reads `strings, `subdict
    {
      subdict.Some? ==> forall p :: p in strings ==> p !in subdict.value.image
    }

    /** The table and the string map fit together. */
    ghost predicate TableValid()
      reads `table, `text, `index, `nbElems, `live, `nextAddr, table
    {
      Inverse(index, text) && TableOk(table[..], text, nbElems, live, nextAddr)
    }

    /** A new string is in the pools, but the table does not know it yet. */
    ghost predicate Stored(ret: Ptr, s: Bytes)
      reads `image, `text
    {
      ret !in text && TextOk(image, text[ret := s])
    }

    /** The string goes into the pools. */
    method AddToPools(s: Bytes) returns (ret: Ptr)
      requires ReprOk() && PoolsValid() && TextOk(image, text)
      modifies this`strings, this`image, this`Repr, Storage(strings)
      ensures ReprOk() && PoolsValid() && Stored(ret, s) && fresh(Repr - old(Repr))
      ensures forall p :: p in strings ==> p in old(strings) || fresh(p)
    {
      var pools;
      ghost var added, grown;
      ret, pools, added, grown := AddString(strings, s, text);
      strings, image, Repr := pools, grown, Repr + added;
    }

    /** New pools are not among the inherited ones. */
    method StoreString(s: Bytes) returns (ret: Ptr)
      requires ReprOk() && PoolsValid() && Separate() && TextOk(image, text)
      modifies this`strings, this`image, this`Repr, Storage(strings)
      ensures ReprOk() && PoolsValid() && Separate() && Stored(ret, s) && fresh(Repr - old(Repr))
    {
      assert subdict.Some? ==> forall p :: p in subdict.value.image ==> allocated(p);
      ret := AddToPools(s);
    }

    /** A stored string gets its entry. */
    method Register(ret: Ptr, s: Bytes)
      requires TableValid() && s != [] && s !in index && ret !in text
      modifies this`nextAddr, this`nbElems, this`live, this`text, this`index, table
      ensures TableValid()
      ensures text == old(text)[ret := s] && index == old(index)[s := ret]
    {
      live := AddEntry(table, ret, s, text, nbElems, live, nextAddr);
      nextAddr := nextAddr + 1;
      nbElems := nbElems + 1;
      InverseInsert(index, text, s, ret);
      text := text[ret := s];
      index := index[s := ret];
    }

    /** The end of xmlDictLookup: a new string in the pools and a new entry at the end of its chain. */
    method Insert(s: Bytes) returns (ret: Ptr)
      requires Valid() && s != [] && s !in index
      modifies Repr
      ensures Valid() && fresh(Repr - old(Repr)) && table == old(table)
      ensures index == old(index)[s := ret] && Inherited() == old(Inherited())
    {
      ret := StoreString(s);
      Register(ret, s);
    }

    /** The table grows after a long search. */
    method GrowIfLong(nbi: nat)
      requires Valid()
      modifies this`table, this`live, this`Repr
      ensures Valid() && fresh(Repr - old(Repr))
    {
      if nbi > MAX_HASH_LEN && table.Length <= (MAX_DICT_HASH / 2) / MAX_HASH_LEN {
        var grown := Grow(MAX_HASH_LEN * 2 * table.Length);
      }
    }

    /** A string that the search has not found. */
    method Intern(s: Bytes, nbi: nat) returns (r: Ptr)
      requires Valid() && s != [] && s !in index
      modifies Repr
      ensures Valid() && fresh(Repr - old(Repr))
      ensures index == old(index)[s := r] && Inherited() == old(Inherited())
    {
      r := Insert(s);
      GrowIfLong(nbi);
    }

    /** xmlDictLookup: the address of the interned copy; the string is interned if it was not. */
    method Lookup(name: Bytes, len: nat) returns (r: Ptr)
      requires Valid() && 0 < len <= |name|
      modifies Repr
      ensures Valid() && fresh(Repr - old(Repr))
      ensures name[..len] in Interned() && r == Interned()[name[..len]]
      ensures Interned() ==
        if name[..len] in old(Interned()) then old(Interned()) else old(Interned())[name[..len] := r]
      ensures Keeps(old(index), index) && Inherited() == old(Inherited())
    {
      var found, nbi := Find(name, len);
      if found.Some? {
        return found.value;
      }
      ghost var inherited, own := subindex, index;
      r := Intern(name[..len], nbi);
      UnionInsert(inherited, own, name[..len], r);
    }

    /** A lookup of a whole name: known strings keep their addresses. */
    method LookupName(name: Bytes) returns (r: Ptr)
      requires Valid() && name != []
      modifies Repr
      ensures Valid() && fresh(Repr - old(Repr)) && Keeps(old(Interned()), Interned())
      ensures name in Interned() && r == Interned()[name] && Keeps(old(index), index)
      ensures Inherited() == old(Inherited())
    {
      assert name[..|name|] == name;
      r := Lookup(name, |name|);
    }

    /** The sub-dictionary is seen as it is now, having interned more strings: no string that was known changes its
        address, neither an inherited one nor one of the dictionary's own. */
    method Refresh(frozen: Frozen, ghost subText: Text, ghost subIndex: Index)
      requires Valid() && FrozenOk(frozen, subText, subIndex) && Keeps(subindex, subIndex)
      requires forall p :: p in strings ==> p !in frozen.image
      modifies `subdict, `subtext, `subindex
      ensures Valid() && Keeps(old(Interned()), Interned())
      ensures Inherited() == (Some(frozen), subText, subIndex)
    {
      UnionKeeps(subindex, subIndex, index);
      subdict, subtext, subindex := Some(frozen), subText, subIndex;
    }

    /** The state as another dictionary sees it. */
    method Freeze() returns (frozen: Frozen)
      requires Valid()
      ensures FrozenOk(frozen, text, index) && frozen.image == image
    {
      frozen := Frozen(table[..], ImageOf(strings), subdict);
    }

    /** The entries are counted right: one for each string of the dictionary's own. */
    lemma CountIsStrings()
      requires Valid()
      ensures nbElems == |text| == |index|
    {
      EntriesAreStrings(table[..], text);
      InverseSize(index, text);
    }

    /** Addresses of interned strings are equal exactly when the strings are. */
    lemma AddressIdentifies(s: Bytes, t: Bytes)
      requires Valid() && s in Interned() && t in Interned()
      ensures Interned()[s] == Interned()[t] <==> s == t
    {
      InternedDenotes(s);
      InternedDenotes(t);
    }

    /** Every interned address denotes its NUL-terminated string in a pool of this dictionary or of its parent. */
    lemma InternedDenotes(s: Bytes)
      requires Valid() && s in Interned()
      ensures
        var p := Interned()[s];
        if s in index then p in text && text[p] == s && Denotes(image, p, s)
        else subdict.Some? && p in subtext && subtext[p] == s && Denotes(subdict.value.image, p, s)
    {
      var p := Interned()[s];
      if s in index {
        assert p == index[s] && text[index[s]] == s;
        assert Denotes(image, p, text[p]);
      } else {
        assert p == subindex[s] && subtext[subindex[s]] == s;
        assert Denotes(subdict.value.image, p, subtext[p]);
      }
    }

    ghost predicate InPools(str: Ptr)
      reads `image, `subdict
    {
      (str.pool in image && str.off <= |image[str.pool]|) || (subdict.Some? && FrozenOwns(subdict.value, str))
    }

    lemma InternedOwned(str: Ptr)
      requires Valid()
      ensures (exists s :: s in Interned() && Interned()[s] == str) ==> InPools(str)
    {
      if s :| s in Interned() && Interned()[s] == str {
        InternedDenotes(s);
      }
    }

    /** xmlDictOwns: the address lies in the used part of a pool, of this dictionary or of one beneath it. */
    method Owns(str: Ptr) returns (r: bool)
      requires Valid()
      ensures r <==> InImage(image, str) || exists f :: f in Beneath(subdict) && InImage(f.image, str)
      ensures (exists s :: s in Interned() && Interned()[s] == str) ==> r
    {
      InternedOwned(str);
      if subdict.Some? {
        FrozenOwnsPools(subdict.value, str);
      }
      r := PoolsHold(strings, str);
      if !r && subdict.Some? {
        r := FrozenOwns(subdict.value, str);
      }
    }

    /** The loop of xmlDictOwns over the pools. */
    static method PoolsHold(strings: seq<Pool>, str: Ptr) returns (r: bool)
      requires PoolsOk(strings)
      ensures r <==> str.pool in strings && str.off <= str.pool.free
    {
      for i := 0 to |strings|
        invariant forall j :: 0 <= j < i ==> !(str.pool == strings[j] && str.off <= strings[j].free)
      {
        if str.pool == strings[i] && str.off <= strings[i].free {
          return true;
        }
      }
      return false;
    }

    /** The entry loop of xmlDictFree: it stops once `nbElems` entries have been passed, and by then every
        overflow entry has been freed exactly once. */
    method FreeEntries()
      requires Valid()
      modifies this`nbElems, this`live
      ensures nbElems == 0 && live == {}
    {
      var i := 0;
      assert table[0..] == table[..];
      while i < table.Length && nbElems > 0
        invariant i <= table.Length
        invariant nbElems == Size(table[i..]) && Accounted(table[i..], [], live)
      {
        nbElems, live := FreeBucket(table[..], i, nbElems, live);
        i := i + 1;
      }
      assert Size(table[table.Length..]) == 0;
      AllFreed(table[i..], live);
    }
  }

  /** One bucket of xmlDictFree: the head is part of the table, every other entry is freed. */
  method FreeBucket(bs: seq<Bucket>, i: nat, nb0: nat, ghost live0: set<nat>) returns (nb: nat, ghost live: set<nat>)
    requires i < |bs| && nb0 == Size(bs[i..]) && Accounted(bs[i..], [], live0)
    ensures nb == Size(bs[i + 1..]) && Accounted(bs[i + 1..], [], live)
  {
    assert bs[i..][1..] == bs[i + 1..];
    nb, live := nb0, live0;
    OverflowPending(bs[i..], live);
    if bs[i].Chain? {
      nb := nb - 1;
      var chain := bs[i].overflow;
      assert chain[0..] == chain;
      for j := 0 to |chain|
        invariant nb == Size(bs[i + 1..]) + |chain| - j
        invariant Accounted(bs[i + 1..], chain[j..], live)
      {
        assert chain[j..][1..] == chain[j + 1..];
        FreeOne(bs[i + 1..], chain[j..], live);
        live := live - {chain[j].addr};
        nb := nb - 1;
      }
    }
  }

  /** The body of xmlDictGrow: a fresh table with the same entries, and fewer or equally many overflow entries. */
  method Rehash(was: seq<Bucket>, size: nat, image: Image, ghost text: Text, ghost nbElems: nat,
                ghost live0: set<nat>, ghost nextAddr: nat)
    returns (bigger: array<Bucket>, ghost live: set<nat>)
    requires TextOk(image, text) && TableOk(was, text, nbElems, live0, nextAddr)
    requires size == 8 * |was| && size <= 8 * 2048
    ensures fresh(bigger) && bigger[..] == Rehashed(was, text, size)
    ensures live <= live0 && TableOk(bigger[..], text, nbElems, live, nextAddr)
  {
    bigger := new Bucket[size](_ => Empty);
    assert bigger[..] == EmptyTable(size);
    live := Refill(was, bigger, 8, image, text, live0);
    RehashedOk(was, text, size, nbElems, live0, live, nextAddr);
  }

  /** The two loops of xmlDictGrow. */
  method Refill(was: seq<Bucket>, table: array<Bucket>, ghost factor: nat, image: Image, ghost text: Text,
                ghost live0: set<nat>) returns (ghost live: set<nat>)
    requires TextOk(image, text) && Placed(was, text) && Accounted(was, [], live0)
    requires |was| > 0 && factor > 0 && table.Length == factor * |was| > 0 && table[..] == EmptyTable(table.Length)
    modifies table
    ensures table[..] == Rehashed(was, text, table.Length)
    ensures live <= live0 && Accounted(table[..], [], live)
  {
    MemberSplits(was, text, |was|, 0);
    MoveHeads(was, table, factor, image, text);
    TailsAccounted(was, table[..], live0);
    live := MoveTails(was, table, live0, image, text);
  }

  lemma RehashedOk(was: seq<Bucket>, text: Text, size: nat, nbElems: nat, live0: set<nat>, live: set<nat>,
                   nextAddr: nat)
    requires TableOk(was, text, nbElems, live0, nextAddr) && live <= live0
    requires size == 8 * |was| && size <= 8 * 2048 && Accounted(Rehashed(was, text, size), [], live)
    ensures TableOk(Rehashed(was, text, size), text, nbElems, live, nextAddr)
  {
    RehashKeeps(was, text, size);
  }

  /** A new entry becomes the head of its bucket, or else an overflow entry at the end of the chain. */
  method AddEntry(table: array<Bucket>, ret: Ptr, s: Bytes, ghost text: Text, ghost nbElems: nat,
                  ghost live0: set<nat>, nextAddr: nat) returns (ghost live: set<nat>)
    requires TableOk(table[..], text, nbElems, live0, nextAddr) && ret !in text && s != []
    modifies table
    ensures TableOk(table[..], text[ret := s], nbElems + 1, live, nextAddr + 1)
  {
    var key := ComputeKey(s, |s|) % table.Length;
    var entry := Entry(ret, |s|, nextAddr);
    InsertOk(table[..], text, nbElems, live0, nextAddr, entry, s);
    live := if table[key].Empty? then live0 else live0 + {nextAddr};
    ghost var before := table[..];
    table[key] := Attach(table[key], entry);
    assert table[..] == before[key := Attach(before[key], entry)];
  }

  method NewTable() returns (t: array<Bucket>)
    ensures fresh(t) && TableOk(t[..], map[], 0, {}, 0)
  {
    t := new Bucket[MIN_DICT_SIZE](_ => Empty);
    EmptyOk(t[..]);
  }

  lemma EmptyOk(bs: seq<Bucket>)
    requires |bs| == 128 && forall k :: 0 <= k < |bs| ==> bs[k] == Empty
    ensures TableOk(bs, map[], 0, {}, 0)
  {
    forall a
      ensures Nodes(bs, a) + AddrCount([], a) == 0
    {
      NoOverflowNodes(bs, a);
    }
    EmptySize(bs);
  }

  lemma UnionInsert(a: Index, b: Index, s: Bytes, p: Ptr)
    ensures (a + b)[s := p] == a + b[s := p]
  {
  }

  lemma UnionKeeps(a: Index, more: Index, b: Index)
    requires Keeps(a, more)
    ensures Keeps(a + b, more + b)
  {
  }

  /** Earlier strings keep their addresses. */
  ghost predicate Keeps(before: Index, after: Index) {
    forall s :: s in before ==> s in after && after[s] == before[s]
  }

  lemma KeepsTwice(a: Index, b: Index, c: Index)
    requires Keeps(a, b) && Keeps(b, c)
    ensures Keeps(a, c)
  {
  }

  /** The i-th result is the address of the i-th name. */
  ghost predicate Answers(ptrs: seq<Ptr>, names: seq<Bytes>, index: Index)
    requires |ptrs| <= |names|
  {
    forall i :: 0 <= i < |ptrs| ==> names[i] in index && ptrs[i] == index[names[i]]
  }

  lemma AnswersMore(ptrs: seq<Ptr>, names: seq<Bytes>, first: Index, before: Index, after: Index, p: Ptr)
    requires |ptrs| < |names| && Answers(ptrs, names, before) && Keeps(first, before)
    requires
      var s := names[|ptrs|];
      s in after && after[s] == p && after == if s in before then before else before[s := p]
    ensures Answers(ptrs + [p], names, after) && Keeps(first, after)
  {
  }

  /** Two results are the same address exactly when the names are the same string. */
  lemma SameAnswerSameName(d: Dict, ptrs: seq<Ptr>, names: seq<Bytes>, i: nat, j: nat)
    requires d.Valid() && |ptrs| == |names| && Answers(ptrs, names, d.Interned()) && i < |ptrs| && j < |ptrs|
    ensures ptrs[i] == ptrs[j] <==> names[i] == names[j]
  {
    d.AddressIdentifies(names[i], names[j]);
  }

  /** Any history of lookups: every result is the one address of its string, and no earlier string moves. */
  method LookupAll(d: Dict, names: seq<Bytes>) returns (ptrs: seq<Ptr>)
    requires d.Valid() && forall i :: 0 <= i < |names| ==> names[i] != []
    modifies d.Repr
    ensures d.Valid() && |ptrs| == |names|
    ensures Keeps(old(d.Interned()), d.Interned()) && Answers(ptrs, names, d.Interned())
  {
    ptrs := [];
    ghost var first := d.Interned();
    for i := 0 to |names|
      invariant d.Valid() && fresh(d.Repr - old(d.Repr)) && |ptrs| == i
      invariant Keeps(first, d.Interned()) && Answers(ptrs, names, d.Interned())
    {
      ghost var before := d.Interned();
      var p := d.Lookup(names[i], |names[i]|);
      assert names[i][..|names[i]|] == names[i];
      AnswersMore(ptrs, names, first, before, d.Interned(), p);
      ptrs := ptrs + [p];
    }
  }

  // ---------------------------------------------------------------- a sub-dictionary that goes on

  /** The child inherits from the parent, which may have interned more strings since it was last looked at. */
  ghost predicate Over(parent: Dict, child: Dict)
    reads parent, parent.Repr, child, child.Repr
  {
    && parent.Valid() && child.Valid() && parent.Repr !! child.Repr
    && Keeps(child.subindex, parent.index)
  }

  lemma PoolsApart(parent: Dict, child: Dict)
    requires Over(parent, child)
    ensures forall p :: p in child.strings ==> p !in parent.image
  {
    forall p | p in child.strings
      ensures p !in parent.strings
    {
      InStorage(child.strings, p);
      NotInStorage(parent.strings, p);
    }
  }

  /** The child looks at the parent as it is now. */
  method See(parent: Dict, child: Dict)
    requires Over(parent, child)
    modifies child`subdict, child`subtext, child`subindex
    ensures Over(parent, child) && child.subindex == parent.index
    ensures Keeps(old(child.Interned()), child.Interned())
    ensures forall s :: s in parent.index && s !in child.index ==>
              s in child.Interned() && child.Interned()[s] == parent.index[s]
  {
    var frozen := parent.Freeze();
    PoolsApart(parent, child);
    child.Refresh(frozen, parent.text, parent.index);
  }

  /** A lookup in the child: the child's own strings come first, then those that the parent has by now. */
  method LookupOver(parent: Dict, child: Dict, name: Bytes) returns (r: Ptr)
    requires Over(parent, child) && name != []
    modifies child.Repr
    ensures Over(parent, child) && fresh(child.Repr - old(child.Repr))
    ensures Keeps(old(child.Interned()), child.Interned())
    ensures name in child.Interned() && r == child.Interned()[name]
    ensures name !in old(child.index) && name in parent.index ==> r == parent.index[name]
  {
    ghost var first := child.Interned();
    See(parent, child);
    ghost var second := child.Interned();
    r := child.LookupName(name);
    KeepsTwice(first, second, child.Interned());
  }

  /** A call goes to the child or to the parent. */
  datatype Call = ToChild(name: Bytes) | ToParent(name: Bytes)

  /** The i-th result is the address that the dictionary of the i-th call has for its name. */
  ghost predicate Replies(ptrs: seq<Ptr>, calls: seq<Call>, child: Index, parent: Index)
    requires |ptrs| <= |calls|
  {
    forall i :: 0 <= i < |ptrs| ==>
      var index := if calls[i].ToChild? then child else parent;
      calls[i].name in index && ptrs[i] == index[calls[i].name]
  }

  lemma RepliesMore(ptrs: seq<Ptr>, calls: seq<Call>, child: Index, child': Index, parent: Index, parent': Index,
                    p: Ptr)
    requires |ptrs| < |calls| && Replies(ptrs, calls, child, parent)
    requires Keeps(child, child') && Keeps(parent, parent')
    requires
      var call := calls[|ptrs|];
      var index := if call.ToChild? then child' else parent';
      call.name in index && index[call.name] == p
    ensures Replies(ptrs + [p], calls, child', parent')
  {
  }

  /** Lookups in both, in any order: every result is the one address of its name in that dictionary, although the
      parent goes on interning below the child. */
  method LookupBoth(parent: Dict, child: Dict, calls: seq<Call>) returns (ptrs: seq<Ptr>)
    requires Over(parent, child) && forall i :: 0 <= i < |calls| ==> calls[i].name != []
    modifies parent.Repr, child.Repr
    ensures Over(parent, child) && |ptrs| == |calls|
    ensures Replies(ptrs, calls, child.Interned(), parent.Interned())
    ensures Keeps(old(child.Interned()), child.Interned()) && Keeps(old(parent.Interned()), parent.Interned())
  {
    ptrs := [];
    ghost var inChild, inParent := child.Interned(), parent.Interned();
    ghost var c, q := inChild, inParent;
    for i := 0 to |calls|
      invariant Over(parent, child) && |ptrs| == i && child.Interned() == c && parent.Interned() == q
      invariant fresh(parent.Repr - old(parent.Repr)) && fresh(child.Repr - old(child.Repr))
      invariant Keeps(inChild, c) && Keeps(inParent, q) && Replies(ptrs, calls, c, q)
    {
      ptrs := AskNext(parent, child, calls, ptrs);
      KeepsTwice(inChild, c, child.Interned());
      KeepsTwice(inParent, q, parent.Interned());
      c, q := child.Interned(), parent.Interned();
    }
  }

  method AskNext(parent: Dict, child: Dict, calls: seq<Call>, ptrs: seq<Ptr>) returns (more: seq<Ptr>)
    requires Over(parent, child) && forall i :: 0 <= i < |calls| ==> calls[i].name != []
    requires |ptrs| < |calls| && Replies(ptrs, calls, child.Interned(), parent.Interned())
    modifies parent.Repr, child.Repr
    ensures Over(parent, child) && fresh(parent.Repr - old(parent.Repr)) && fresh(child.Repr - old(child.Repr))
    ensures Keeps(old(child.Interned()), child.Interned()) && Keeps(old(parent.Interned()), parent.Interned())
    ensures |more| == |ptrs| + 1 && Replies(more, calls, child.Interned(), parent.Interned())
  {
    ghost var c, q := child.Interned(), parent.Interned();
    var p := Ask(parent, child, calls[|ptrs|]);
    RepliesMore(ptrs, calls, c, child.Interned(), q, parent.Interned(), p);
    more := ptrs + [p];
  }

  method Ask(parent: Dict, child: Dict, call: Call) returns (p: Ptr)
    requires Over(parent, child) && call.name != []
    modifies parent.Repr, child.Repr
    ensures Over(parent, child) && fresh(parent.Repr - old(parent.Repr)) && fresh(child.Repr - old(child.Repr))
    ensures Keeps(old(child.Interned()), child.Interned()) && Keeps(old(parent.Interned()), parent.Interned())
    ensures
      var index := if call.ToChild? then child.Interned() else parent.Interned();
      call.name in index && p == index[call.name]
  {
    if call.ToChild? {
      p := LookupOver(parent, child, call.name);
    } else {
      p := parent.LookupName(call.name);
    }
  }
}

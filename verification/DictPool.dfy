/** The string pools of the dictionary: interned strings are packed one after the other, NUL-terminated, and
    never move. */
module DictPool {
  import opened Memory

  type Byte = b: int | 0 <= b < 256
  type Bytes = seq<Byte>

  /** xmlDictStrings: `data` is the character array, `free` the index of its first unused byte. */
  class Pool {
    const data: array<Byte>
    var free: nat

    constructor (size: nat)
      ensures free == 0 && data.Length == size && fresh(data)
    {
      data := new Byte[size];
      free := 0;
    }
  }

  /** The address of a string inside a pool. */
  datatype Ptr = Ptr(pool: Pool, off: nat)

  /** The strings that live in the pools, by address. */
  type Text = map<Ptr, Bytes>

  ghost predicate PoolsOk(pools: seq<Pool>)
    reads Storage(pools)
  {
    && (forall i, j :: 0 <= i < j < |pools| ==> pools[i] != pools[j] && pools[i].data != pools[j].data)
    && (forall p :: p in pools ==> p.free <= p.data.Length)
  }

  /** The pools and their arrays. */
  ghost function Storage(pools: seq<Pool>): set<object> {
    (set p | p in pools :: p as object) + (set p | p in pools :: p.data as object)
  }

  /** The used part of every pool. */
  type Image = map<Pool, Bytes>

  function ImageOf(pools: seq<Pool>): Image
    requires PoolsOk(pools)
    reads Storage(pools)
  {
    map p | p in pools :: p.data[..p.free]
  }

  /** The address denotes the string: its bytes and a final NUL lie in the used part of a pool. */
  ghost predicate Denotes(image: Image, p: Ptr, s: Bytes) {
    && p.pool in image && p.off + |s| < |image[p.pool]|
    && image[p.pool][p.off..p.off + |s|] == s && image[p.pool][p.off + |s|] == 0
  }

  /** Every address denotes its string, and no two strings overlap. */
  ghost predicate TextOk(image: Image, text: Text) {
    && (forall p {:trigger Denotes(image, p, text[p])} :: p in text ==> Denotes(image, p, text[p]))
    && (forall p, q {:trigger Apart(text, p, q)} :: p in text && q in text ==> Apart(text, p, q))
  }

  /** Two strings with their final NULs do not overlap. */
  ghost predicate Apart(text: Text, p: Ptr, q: Ptr)
    requires p in text && q in text
  {
    p != q && p.pool == q.pool ==> p.off + |text[p]| < q.off || q.off + |text[q]| < p.off
  }

  /** A pool grows at its end; other pools may appear. */
  ghost predicate Extends(image: Image, image': Image) {
    forall p :: p in image ==> p in image' && image[p] <= image'[p]
  }

  lemma DenotesKept(image: Image, image': Image, p: Ptr, s: Bytes)
    requires Extends(image, image') && Denotes(image, p, s)
    ensures Denotes(image', p, s)
  {
    var a, b := image[p.pool], image'[p.pool];
    assert b[p.off..p.off + |s|] == a[p.off..p.off + |s|];
  }

  lemma TextGrows(image: Image, image': Image, text: Text, pool: Pool, name: Bytes)
    requires TextOk(image, text) && Extends(image, image') && pool in image'
    requires var used := if pool in image then image[pool] else []; image'[pool] == used + name + [0]
    ensures
      var at := if pool in image then |image[pool]| else 0;
      Ptr(pool, at) !in text && TextOk(image', text[Ptr(pool, at) := name])
  {
    var at := if pool in image then |image[pool]| else 0;
    forall p | p in text
      ensures Denotes(image', p, text[p])
    {
      assert Denotes(image, p, text[p]);
      DenotesKept(image, image', p, text[p]);
    }
    assert image'[pool][at..at + |name|] == name;
    var at', text' := Ptr(pool, at), text[Ptr(pool, at) := name];
    assert at' in text ==> Denotes(image, at', text[at']);
    forall p, q | p in text' && q in text'
      ensures Apart(text', p, q)
    {
      if p in text { assert Denotes(image, p, text[p]); }
      if q in text { assert Denotes(image, q, text[q]); }
      if p in text && q in text { assert Apart(text, p, q); }
    }
  }

  lemma InStorage(pools: seq<Pool>, p: Pool)
    requires p in pools
    ensures p in Storage(pools) && p.data in Storage(pools)
  {
  }

  lemma NotInStorage(pools: seq<Pool>, p: Pool)
    requires p !in Storage(pools)
    ensures p !in pools
  {
  }

  lemma StorageCons(pool: Pool, pools: seq<Pool>)
    ensures Storage([pool] + pools) == Storage(pools) + {pool, pool.data}
  {
    var more := [pool] + pools;
    assert forall p :: p in more <==> p == pool || p in pools;
    assert pool in more;
    forall o: object | o in Storage(more)
      ensures o in Storage(pools) + {pool, pool.data}
    {
      var p: Pool :| p in more && (o == p as object || o == p.data as object);
    }
    forall o: object | o in Storage(pools)
      ensures o in Storage(more)
    {
      var p: Pool :| p in pools && (o == p as object || o == p.data as object);
      assert p in more;
    }
  }

  function Largest(pools: seq<Pool>): (r: nat)
    ensures forall p :: p in pools ==> p.data.Length <= r
    ensures r == 0 || exists p :: p in pools && p.data.Length == r
  {
    if pools == [] then 0
    else
      var last := pools[|pools| - 1].data.Length;
      assert pools == pools[..|pools| - 1] + [pools[|pools| - 1]];
      if last > Largest(pools[..|pools| - 1]) then last else Largest(pools[..|pools| - 1])
  }

  predicate HasRoom(pool: Pool, namelen: nat)
    reads pool
  {
    pool.data.Length - pool.free > namelen
  }

  ghost predicate Full(pools: seq<Pool>, namelen: nat)
    reads pools
  {
    forall i :: 0 <= i < |pools| ==> !HasRoom(pools[i], namelen)
  }

  ghost predicate FirstWithRoom(pools: seq<Pool>, pool: Pool, namelen: nat)
    reads pools, pool
  {
    HasRoom(pool, namelen) && exists i :: 0 <= i < |pools| && pools[i] == pool && Full(pools[..i], namelen)
  }

  function NewSize(pools: seq<Pool>, namelen: nat): nat {
    var size := if Largest(pools) == 0 then 1000 else 4 * Largest(pools);
    if size < 4 * namelen then 4 * namelen else size
  }

  ghost predicate Chosen(pools: seq<Pool>, r: seq<Pool>, pool: Pool, namelen: nat)
    reads pools, pool
  {
    if r == pools then FirstWithRoom(pools, pool, namelen)
    else Full(pools, namelen) && pool.data.Length == NewSize(pools, namelen)
  }

  lemma FullMore(pools: seq<Pool>, i: nat, namelen: nat)
    requires i < |pools| && Full(pools[..i], namelen) && !HasRoom(pools[i], namelen)
    ensures Full(pools[..i + 1], namelen)
    ensures Largest(pools[..i + 1])
         == if pools[i].data.Length > Largest(pools[..i]) then pools[i].data.Length else Largest(pools[..i])
  {
    assert pools[..i + 1][..i] == pools[..i] && pools[..i + 1][i] == pools[i];
  }

  /** The loop of xmlDictAddString over the pools. */
  method FirstRoom(pools: seq<Pool>, namelen: nat) returns (i: nat, size: nat)
    requires PoolsOk(pools)
    ensures i <= |pools| && Full(pools[..i], namelen) && size == Largest(pools[..i])
    ensures i < |pools| ==> HasRoom(pools[i], namelen)
  {
    i, size := 0, 0;
    while i < |pools|
      invariant i <= |pools| && Full(pools[..i], namelen) && size == Largest(pools[..i])
    {
      if pools[i].data.Length - pools[i].free > namelen {
        return;
      }
      FullMore(pools, i, namelen);
      if pools[i].data.Length > size {
        size := pools[i].data.Length;
      }
      i := i + 1;
    }
  }

  /** The pool search of xmlDictAddString: the first pool with room, or else a new one in front, of 1000 bytes or
      four times the largest size or four times the name. */
  method FindPool(pools: seq<Pool>, namelen: nat) returns (pool: Pool, r: seq<Pool>, ghost added: set<object>)
    requires PoolsOk(pools)
    ensures pool in r && HasRoom(pool, namelen)
    ensures r == pools || (r == [pool] + pools && fresh(pool) && fresh(pool.data) && pool.free == 0)
    ensures Chosen(pools, r, pool, namelen)
    ensures PoolsOk(r) && fresh(added) && Storage(r) == Storage(pools) + added
  {
    added := {};
    var i, size := FirstRoom(pools, namelen);
    if i < |pools| {
      return pools[i], pools, {};
    }
    assert pools[..i] == pools;
    size := if size == 0 then 1000 else 4 * size;
    if size < 4 * namelen {
      size := 4 * namelen;
    }
    pool := new Pool(size);
    r := [pool] + pools;
    added := {pool, pool.data};
    StorageCons(pool, pools);
  }

  /** The copy at the end of xmlDictAddString: the name, then a NUL. */
  method Append(pool: Pool, name: Bytes)
    requires pool.free + |name| < pool.data.Length
    modifies pool`free, pool.data
    ensures pool.free == old(pool.free) + |name| + 1 <= pool.data.Length
    ensures pool.data[..pool.free] == old(pool.data[..pool.free]) + name + [0]
  {
    Memcpy(pool.data, pool.free, name);
    pool.free := pool.free + |name|;
    ghost var copied := pool.data[..pool.free];
    pool.data[pool.free] := 0;
    pool.free := pool.free + 1;
    assert pool.data[..pool.free] == copied + [0];
  }

  /** The used part of the pool grows by the name and its NUL; the other pools stay as they are. */
  method AddToPool(pools: seq<Pool>, pool: Pool, name: Bytes)
    requires PoolsOk(pools) && pool in pools && HasRoom(pool, |name|)
    modifies pool`free, pool.data
    ensures PoolsOk(pools)
    ensures ImageOf(pools) == old(ImageOf(pools))[pool := old(ImageOf(pools))[pool] + name + [0]]
  {
    Append(pool, name);
  }

  /** xmlDictAddString: a new string at a new address; all earlier strings stay where they are. */
  method AddString(pools: seq<Pool>, name: Bytes, ghost text: Text)
    returns (ret: Ptr, r: seq<Pool>, ghost added: set<object>, ghost image: Image)
    requires PoolsOk(pools) && TextOk(ImageOf(pools), text)
    modifies Storage(pools)
    ensures PoolsOk(r)
    ensures fresh(added) && Storage(r) == Storage(pools) + added
    ensures forall p :: p in r ==> p in pools || fresh(p)
    ensures image == ImageOf(r) && ret !in text && TextOk(image, text[ret := name])
  {
    ghost var before := ImageOf(pools);
    var pool;
    pool, r, added := FindPool(pools, |name|);
    ret := Ptr(pool, pool.free);
    ghost var found := ImageOf(r);
    AddToPool(r, pool, name);
    image := ImageOf(r);
    assert found[pool] == if pool in before then before[pool] else [];
    TextGrows(before, image, text, pool, name);
  }
}

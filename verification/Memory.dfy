/** memcpy and realloc on arrays. */
module Memory {

  /** Copies `src` to `dst[at..]`; everything outside that range keeps its value. */
  method Memcpy<T>(dst: array<T>, at: nat, src: seq<T>)
    requires at + |src| <= dst.Length
    modifies dst
    ensures dst[..] == old(dst[..at]) + src + old(dst[at + |src|..])
    ensures dst[..at + |src|] == old(dst[..at]) + src
  {
    for k := 0 to |src|
      invariant forall i :: 0 <= i < k ==> dst[at + i] == src[i]
      invariant forall i :: 0 <= i < at || at + k <= i < dst.Length ==> dst[i] == old(dst[i])
    {
      dst[at + k] := src[k];
    }
    assert dst[at..at + |src|] == src;
    assert dst[..at] == old(dst[..at]);
    assert dst[at + |src|..] == old(dst[at + |src|..]);
    assert dst[..] == dst[..at] + dst[at..at + |src|] + dst[at + |src|..];
  }

  /** A fresh array of the given size that starts with the old contents. */
  method Realloc<T(0)>(a: array<T>, size: nat) returns (b: array<T>)
    requires a.Length <= size
    ensures fresh(b) && b.Length == size
    ensures b[..a.Length] == a[..]
  {
    b := new T[size];
    for k := 0 to a.Length
      invariant forall i :: 0 <= i < k ==> b[i] == a[i]
    {
      b[k] := a[k];
    }
  }
}

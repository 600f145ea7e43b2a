/** Byte loops over buffers. */
module Buffers {
  import opened Words

  method CopyBytes(src: array<U8>, from: nat, dst: array<U8>, to: nat, n: nat)
    requires src != dst && from + n <= src.Length && to + n <= dst.Length
    modifies dst
    ensures dst[..] == old(dst[..to]) + src[from..from + n] + old(dst[to + n..])
  {
    for i := 0 to n
      invariant dst[..to] == old(dst[..to]) && dst[to + n..] == old(dst[to + n..])
      invariant dst[to..to + i] == src[from..from + i]
    {
      dst[to + i] := src[from + i];
    }
  }

  method PutBytes(src: seq<U8>, a: array<U8>, to: nat)
    requires to + |src| <= a.Length
    modifies a
    ensures a[to..to + |src|] == src && forall k :: 0 <= k < a.Length && !(to <= k < to + |src|) ==> a[k] == old(a[k])
  {
    for i := 0 to |src|
      invariant a[to..to + i] == src[..i]
      invariant forall k :: 0 <= k < a.Length && !(to <= k < to + i) ==> a[k] == old(a[k])
    {
      a[to + i] := src[i];
    }
  }

  method ZeroBytes(a: array<U8>)
    modifies a
    ensures forall k :: 0 <= k < a.Length ==> a[k] == 0
  {
    for i := 0 to a.Length
      invariant forall k :: 0 <= k < i ==> a[k] == 0
    {
      a[i] := 0;
    }
  }
}

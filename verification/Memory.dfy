/** Copying bytes within and between buffers (kernel/utils/string.c). */
module Memory {
  import opened ByteSeqs

  /** `after` is `before` with `n` bytes from `src` also standing at `dest`. */
  ghost predicate Moved(before: seq<Byte>, after: seq<Byte>, dest: nat, src: nat, n: nat)
    requires src + n <= |before| && dest + n <= |before|
  {
    && |after| == |before|
    && after[dest..dest + n] == before[src..src + n]
    && forall k :: 0 <= k < |before| && !(dest <= k < dest + n) ==> after[k] == before[k]
  }

  /** memmove within one buffer: the direction of the copy depends on which way the ranges overlap. */
  method Memmove(a: array<Byte>, dest: nat, src: nat, n: nat)
    requires src + n <= a.Length && dest + n <= a.Length
    modifies a
    ensures Moved(old(a[..]), a[..], dest, src, n)
  {
    if src > dest {
      for i := 0 to n
        invariant forall k :: dest <= k < dest + i ==> a[k] == old(a[src - dest + k])
        invariant forall k :: 0 <= k < a.Length && !(dest <= k < dest + i) ==> a[k] == old(a[k])
      {
        a[dest + i] := a[src + i];
      }
    } else if src < dest {
      for i := 0 to n
        invariant forall k :: dest + n - i <= k < dest + n ==> a[k] == old(a[src - dest + k])
        invariant forall k :: 0 <= k < a.Length && !(dest + n - i <= k < dest + n) ==> a[k] == old(a[k])
      {
        a[dest + n - i - 1] := a[src + n - i - 1];
      }
    }
    MovedBytes(old(a[..]), a[..], dest, src, n);
  }

  lemma MovedBytes(before: seq<Byte>, after: seq<Byte>, dest: nat, src: nat, n: nat)
    requires src + n <= |before| && dest + n <= |before| == |after|
    requires forall k :: dest <= k < dest + n ==> after[k] == before[src - dest + k]
    requires forall k :: 0 <= k < |before| && !(dest <= k < dest + n) ==> after[k] == before[k]
    ensures Moved(before, after, dest, src, n)
  {
    assert after[dest..dest + n] == before[src..src + n];
  }

  /** memcpy from a buffer of the caller. */
  method Memcpy(a: array<Byte>, dest: nat, data: seq<Byte>)
    requires dest + |data| <= a.Length
    modifies a
    ensures a[..] == Patch(old(a[..]), dest, data)
  {
    for i := 0 to |data|
      invariant forall k :: 0 <= k < a.Length ==> a[k] == if dest <= k < dest + i then data[k - dest] else old(a[k])
    {
      a[dest + i] := data[i];
    }
  }
}

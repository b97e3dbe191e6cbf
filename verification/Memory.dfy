/** memcpy and memset (src/uefi_min.c), byte by byte as the source has them. */
module Memory {
  import opened Bytes

  /** memcpy(dst + at, src, |src|) */
  method MemCpy(dst: array<byte>, at: nat, src: seq<byte>)
    requires at + |src| <= dst.Length
    modifies dst
    ensures dst[..] == old(dst[..at]) + src + old(dst[at + |src|..])
  {
    var i := 0;
    while i < |src|
      invariant i <= |src|
      invariant dst[..at] == old(dst[..at]) && dst[at..at + i] == src[..i] && dst[at + i..] == old(dst[at + i..])
    {
      dst[at + i] := src[i];
      i := i + 1;
    }
  }

  /** memset(dst, value, n) */
  method MemSet(dst: array<byte>, value: byte, n: nat)
    requires n <= dst.Length
    modifies dst
    ensures (forall i :: 0 <= i < n ==> dst[i] == value) && dst[n..] == old(dst[n..])
  {
    var k := 0;
    while k < n
      invariant k <= n && (forall i :: 0 <= i < k ==> dst[i] == value) && dst[n..] == old(dst[n..])
    {
      dst[k] := value;
      k := k + 1;
    }
  }
}

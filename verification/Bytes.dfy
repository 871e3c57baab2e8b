/**
  The kernel's byte loops: memmove, memset and strcmp over one byte array.
 */
module Bytes {

  type Byte = b: nat | b < 256

  /** Copies size bytes from src to dst; the direction makes overlapping ranges safe. */
  method Memmove(a: array<Byte>, dst: nat, src: nat, size: nat)
    requires dst + size <= a.Length && src + size <= a.Length
    modifies a
    ensures forall i | 0 <= i < a.Length :: a[i] == old(if dst <= i < dst + size then a[src + i - dst] else a[i])
  {
    if dst < src {
      var i := 0;
      while i < size
        invariant 0 <= i <= size
        invariant forall j | 0 <= j < a.Length :: a[j] == old(if dst <= j < dst + i then a[src + j - dst] else a[j])
      {
        a[dst + i] := a[src + i];
        i := i + 1;
      }
    } else {
      var i := size;
      while i != 0
        invariant 0 <= i <= size
        invariant forall j | 0 <= j < a.Length :: a[j] == old(if dst + i <= j < dst + size then a[src + j - dst] else a[j])
      {
        a[dst + i - 1] := a[src + i - 1];
        i := i - 1;
      }
    }
  }

  /** Sets n bytes to the low byte of c. */
  method Memset(a: array<Byte>, at: nat, c: int, n: nat)
    requires at + n <= a.Length
    modifies a
    ensures forall i | 0 <= i < a.Length :: a[i] == if at <= i < at + n then c % 256 else old(a[i])
  {
    var i := 0;
    while i < n
      invariant 0 <= i <= n
      invariant forall j | 0 <= j < a.Length :: a[j] == if at <= j < at + i then c % 256 else old(a[j])
    {
      a[at + i] := c % 256;
      i := i + 1;
    }
  }

  /** 0 when the first n bytes agree, 1 otherwise. */
  method Strcmp(s: seq<Byte>, t: seq<Byte>, n: nat) returns (r: Byte)
    requires n <= |s| && n <= |t|
    ensures r == if s[..n] == t[..n] then 0 else 1
  {
    var i := 0;
    while i < n
      invariant 0 <= i <= n
      invariant s[..i] == t[..i]
    {
      if s[i] != t[i] {
        assert s[..n][i] != t[..n][i];
        return 1;
      }
      i := i + 1;
    }
    return 0;
  }
}

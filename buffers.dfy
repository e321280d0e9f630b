/**
 * Byte buffers as the codecs see them: fixed-width integer types, and the
 * three buffer primitives the C++ code leans on — `memcpy` into a region,
 * `memset` of a region to zero, and copying into a buffer that was
 * allocated zero-filled at a fixed size.
 */
module Buffers {

  type Byte = x: int | 0 <= x < 0x100
  type uint32 = x: int | 0 <= x < 0x1_0000_0000
  type uint64 = x: int | 0 <= x < 0x1_0000_0000_0000_0000
  type int64 = x: int | -0x8000_0000_0000_0000 <= x < 0x8000_0000_0000_0000

  datatype Option<T> = None | Some(value: T)

  function Min(a: int, b: int): int { if a <= b then a else b }

  /** `n` zero bytes. */
  function Zeros(n: nat): (r: seq<Byte>)
    ensures |r| == n
    ensures forall i :: 0 <= i < n ==> r[i] == 0
  {
    seq(n, _ => 0)
  }

  /** `s` with the region `[at, at + |src|)` replaced by `src` (what `memcpy(s + at, src, |src|)` leaves). */
  function Overwrite(s: seq<Byte>, at: nat, src: seq<Byte>): (r: seq<Byte>)
    requires at + |src| <= |s|
    ensures |r| == |s|
    ensures forall i :: 0 <= i < at ==> r[i] == s[i]
    ensures forall i :: 0 <= i < |src| ==> r[at + i] == src[i]
    ensures forall i :: at + |src| <= i < |s| ==> r[i] == s[i]
  {
    s[..at] + src + s[at + |src|..]
  }

  /** The content of an `n`-byte zero-filled buffer after `s` is copied into its front:
      `s` truncated to `n` bytes, or padded with zeros up to `n` bytes. */
  function Fit(s: seq<Byte>, n: nat): (r: seq<Byte>)
    ensures |r| == n
    ensures forall i :: 0 <= i < Min(|s|, n) ==> r[i] == s[i]
    ensures forall i :: |s| <= i < n ==> r[i] == 0
  {
    if |s| >= n then s[..n] else s + Zeros(n - |s|)
  }

  /** `memcpy(dst + at, src, |src|)`: the bytes are stored one at a time. */
  method MemCopy(dst: array<Byte>, at: nat, src: seq<Byte>)
    requires at + |src| <= dst.Length
    modifies dst
    ensures dst[..] == Overwrite(old(dst[..]), at, src)
  {
    var i := 0;
    while i < |src|
      invariant 0 <= i <= |src|
      invariant forall k :: 0 <= k < dst.Length && !(at <= k < at + i) ==> dst[k] == old(dst[k])
      invariant forall k :: at <= k < at + i ==> dst[k] == src[k - at]
    {
      dst[at + i] := src[i];
      i := i + 1;
    }
  }

  /** `memset(dst + at, 0, n)`. */
  method MemSet(dst: array<Byte>, at: nat, n: nat)
    requires at + n <= dst.Length
    modifies dst
    ensures dst[..] == Overwrite(old(dst[..]), at, Zeros(n))
  {
    var i := 0;
    while i < n
      invariant 0 <= i <= n
      invariant forall k :: 0 <= k < dst.Length && !(at <= k < at + i) ==> dst[k] == old(dst[k])
      invariant forall k :: at <= k < at + i ==> dst[k] == 0
    {
      dst[at + i] := 0;
      i := i + 1;
    }
  }
}

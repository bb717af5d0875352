/**
 * Bytes and the two byte-buffer primitives every core file leans on:
 * memset (Fill) and memcpy (CopyInto into a buffer, CopyOut out of one).
 */
module Bytes {

  /** An unsigned 8-bit value (uint8_t). */
  type Byte = b: int | 0 <= b < 0x100

  datatype Option<+T> = None | Some(value: T)

  /** `n` zero bytes: what memset(buf, 0, n) leaves behind. */
  function Zeros(n: nat): (z: seq<Byte>)
    ensures |z| == n
    ensures forall i :: 0 <= i < n ==> z[i] == 0
  {
    seq(n, _ => 0)
  }

  lemma ZerosSplit(a: nat, b: nat)
    ensures Zeros(a + b) == Zeros(a) + Zeros(b)
  {
  }

  /** memset(dst, v, sizeof(dst)) */
  method Fill(dst: array<Byte>, v: Byte)
    modifies dst
    ensures forall i :: 0 <= i < dst.Length ==> dst[i] == v
  {
    var i := 0;
    while i < dst.Length
      invariant 0 <= i <= dst.Length
      invariant forall k :: 0 <= k < i ==> dst[k] == v
    {
      dst[i] := v;
      i := i + 1;
    }
  }

  /** memcpy(dst + at, src, |src|): the bytes of `src` replace dst[at..at + |src|], the rest is kept. */
  method CopyInto(dst: array<Byte>, at: nat, src: seq<Byte>)
    requires at + |src| <= dst.Length
    modifies dst
    ensures dst[..] == old(dst[..])[..at] + src + old(dst[..])[at + |src|..]
  {
    var i := 0;
    while i < |src|
      invariant 0 <= i <= |src|
      invariant forall k :: 0 <= k < at ==> dst[k] == old(dst[k])
      invariant forall k :: 0 <= k < i ==> dst[at + k] == src[k]
      invariant forall k :: at + i <= k < dst.Length ==> dst[k] == old(dst[k])
    {
      dst[at + i] := src[i];
      i := i + 1;
    }
  }

  /** memcpy(out, src + from, len) into a fresh buffer: the `len` bytes of `src` starting at `from`. */
  method CopyOut(src: array<Byte>, from: nat, len: nat) returns (out: seq<Byte>)
    requires from + len <= src.Length
    ensures out == src[from..from + len]
  {
    var buf := new Byte[len];
    var i := 0;
    while i < len
      invariant 0 <= i <= len
      invariant forall k :: 0 <= k < i ==> buf[k] == src[from + k]
    {
      buf[i] := src[from + i];
      i := i + 1;
    }
    out := buf[..];
  }
}

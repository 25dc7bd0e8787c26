/** Fixed-width integers and their little-endian byte form, as used by every
    on-disk record of the storage crate and by the placement hash keys. */
module Bytes {
  const U16: nat := 0x1_0000
  const U32: nat := 0x1_0000_0000
  const U48: nat := 0x1_0000_0000_0000
  const U64: nat := 0x1_0000_0000_0000_0000

  type byte = x: int | 0 <= x < 256
  type u16 = x: int | 0 <= x < U16
  type u32 = x: int | 0 <= x < U32
  type u48 = x: int | 0 <= x < U48
  type u64 = x: int | 0 <= x < U64

  /** An `f32` is only stored, copied and handed to the metric: its bit pattern
      is all that is kept. */
  type F32 = u32
  type Vector = seq<F32>

  datatype Option<+T> = None | Some(value: T)

  function Pow256(n: nat): (p: nat)
    ensures p > 0
  {
    if n == 0 then 1 else 256 * Pow256(n - 1)
  }

  /** `v.to_le_bytes()` for an `n`-byte integer; like Rust's `as`, it keeps only
      the low `n` bytes of a value that is too wide. */
  function ToLe(n: nat, v: nat): (b: seq<byte>)
    ensures |b| == n
  {
    if n == 0 then [] else [v % 256] + ToLe(n - 1, v / 256)
  }

  /** `from_le_bytes`. */
  function FromLe(b: seq<byte>): nat {
    if b == [] then 0 else b[0] + 256 * FromLe(b[1..])
  }

  lemma {:induction false} FromLeBound(b: seq<byte>)
    ensures FromLe(b) < Pow256(|b|)
  {
    if b != [] { FromLeBound(b[1..]); }
  }

  lemma {:induction false} FromToLe(n: nat, v: nat)
    requires v < Pow256(n)
    ensures FromLe(ToLe(n, v)) == v
  {
    if n > 0 {
      FromToLe(n - 1, v / 256);
      assert ToLe(n, v)[1..] == ToLe(n - 1, v / 256);
    }
  }

  lemma {:induction false} ToFromLe(b: seq<byte>)
    ensures ToLe(|b|, FromLe(b)) == b
  {
    if b != [] {
      ToFromLe(b[1..]);
      assert FromLe(b) / 256 == FromLe(b[1..]) && FromLe(b) % 256 == b[0];
    }
  }

  lemma Widths()
    ensures Pow256(4) == U32 && Pow256(8) == U64
  {}

  /** Four bytes and a `u32` determine each other. */
  lemma Le32(b: seq<byte>, v: u32)
    requires |b| == 4
    ensures FromLe(b) < U32
    ensures FromLe(b) == v <==> b == ToLe(4, v)
  {
    Widths(); FromLeBound(b); ToFromLe(b); FromToLe(4, v);
  }

  /** Eight bytes and a `u64` determine each other. */
  lemma Le64(b: seq<byte>, v: u64)
    requires |b| == 8
    ensures FromLe(b) < U64
    ensures FromLe(b) == v <==> b == ToLe(8, v)
  {
    Widths(); FromLeBound(b); ToFromLe(b); FromToLe(8, v);
  }

  lemma ToLeInjective(n: nat, a: nat, b: nat)
    requires a < Pow256(n) && b < Pow256(n) && ToLe(n, a) == ToLe(n, b)
    ensures a == b
  {
    FromToLe(n, a); FromToLe(n, b);
  }

  function Read32(b: seq<byte>, p: nat): (v: u32)
    requires p + 4 <= |b|
    ensures b[p..p + 4] == ToLe(4, v)
  {
    Le32(b[p..p + 4], 0);
    var v := FromLe(b[p..p + 4]);
    Le32(b[p..p + 4], v);
    v
  }

  function Read64(b: seq<byte>, p: nat): (v: u64)
    requires p + 8 <= |b|
    ensures b[p..p + 8] == ToLe(8, v)
  {
    Le64(b[p..p + 8], 0);
    var v := FromLe(b[p..p + 8]);
    Le64(b[p..p + 8], v);
    v
  }

  /** Taking a four-part sequence apart at known lengths. */
  lemma Cat4<T>(a: seq<T>, b: seq<T>, c: seq<T>, d: seq<T>, x: seq<T>, i: nat, j: nat, k: nat)
    requires i == |a| && j == i + |b| && k == j + |c| && |x| == k + |d|
    ensures x == a + b + c + d <==> x[..i] == a && x[i..j] == b && x[j..k] == c && x[k..] == d
  {}
}

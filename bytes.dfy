/** Byte strings and the integer encodings that Go's encoding/binary and math/big put on them. */
module Bytes {

  /** Go's `byte`. */
  type byte = x: int | 0 <= x < 256

  const TWO_64: nat := 0x1_0000_0000_0000_0000
  const TWO_256: nat := 0x1_0000_0000_0000_0000_0000_0000_0000_0000_0000_0000_0000_0000_0000_0000_0000_0000

  /** Go's `uint64`. */
  type u64 = x: nat | x < TWO_64

  /** Go's `[32]byte`. */
  type Bytes32 = s: seq<byte> | |s| == 32 witness LeBytes(0, 32)

  function Pow256(k: nat): (r: nat)
    ensures r > 0
  {
    if k == 0 then 1 else 256 * Pow256(k - 1)
  }

  lemma Pow256Values()
    ensures Pow256(8) == TWO_64 && Pow256(32) == TWO_256
  {
    assert Pow256(8) == TWO_64;
    assert Pow256(16) == 0x1_0000_0000_0000_0000_0000_0000_0000_0000;
    assert Pow256(24) == 0x1_0000_0000_0000_0000_0000_0000_0000_0000_0000_0000_0000_0000;
  }

  /** The unsigned integer whose little-endian encoding is `s`. */
  function LeValue(s: seq<byte>): nat
  {
    if s == [] then 0 else s[0] + 256 * LeValue(s[1..])
  }

  /** The unsigned integer whose big-endian encoding is `s` (big.Int.SetBytes). */
  function BeValue(s: seq<byte>): nat
  {
    if s == [] then 0 else 256 * BeValue(s[..|s| - 1]) + s[|s| - 1]
  }

  /** The `len` low-order bytes of `n`, least significant first
      (binary.LittleEndian.PutUint64 when `len` is 8). */
  function LeBytes(n: nat, len: nat): (r: seq<byte>)
    ensures |r| == len
  {
    if len == 0 then [] else [n % 256] + LeBytes(n / 256, len - 1)
  }

  /** The shortest big-endian encoding of `n`, without leading zero bytes (big.Int.Bytes). */
  function MinimalBeBytes(n: nat): seq<byte>
  {
    if n == 0 then [] else MinimalBeBytes(n / 256) + [n % 256]
  }

  function Zeros(k: nat): (r: seq<byte>)
    ensures |r| == k && forall i :: 0 <= i < k ==> r[i] == 0
  {
    seq(k, _ => 0)
  }

  /** The bytes of `s` in the opposite order. */
  function Reverse<T>(s: seq<T>): (r: seq<T>)
    ensures |r| == |s|
    ensures forall i :: 0 <= i < |s| ==> r[i] == s[|s| - 1 - i]
  {
    if s == [] then [] else [s[|s| - 1]] + Reverse(s[..|s| - 1])
  }

  lemma ReverseTwice<T>(s: seq<T>)
    ensures Reverse(Reverse(s)) == s
  {
  }

  lemma {:induction false} LeValueBound(s: seq<byte>)
    ensures LeValue(s) < Pow256(|s|)
  {
    if s != [] {
      LeValueBound(s[1..]);
    }
  }

  /** Decoding an encoding that is wide enough gives the number back. */
  lemma {:induction false} LeValueOfLeBytes(n: nat, len: nat)
    requires n < Pow256(len)
    ensures LeValue(LeBytes(n, len)) == n
  {
    if len > 0 {
      LeValueOfLeBytes(n / 256, len - 1);
      assert LeBytes(n, len)[1..] == LeBytes(n / 256, len - 1);
    }
  }

  /** Encoding the value of a byte string at its own width gives the string back. */
  lemma {:induction false} LeBytesOfLeValue(s: seq<byte>)
    ensures LeBytes(LeValue(s), |s|) == s
  {
    if s != [] {
      var v := LeValue(s);
      assert v == s[0] + 256 * LeValue(s[1..]);
      assert v % 256 == s[0] && v / 256 == LeValue(s[1..]);
      LeBytesOfLeValue(s[1..]);
      assert s == [s[0]] + s[1..];
    }
  }

  /** Big-endian reading is little-endian reading of the reversed bytes. */
  lemma {:induction false} BeValueIsReversedLe(s: seq<byte>)
    ensures BeValue(s) == LeValue(Reverse(s))
  {
    if s != [] {
      BeValueIsReversedLe(s[..|s| - 1]);
      assert Reverse(s)[1..] == Reverse(s[..|s| - 1]);
    }
  }

  /** Reading the reversed bytes big-endian is reading the bytes little-endian. */
  lemma BeValueOfReversed(s: seq<byte>)
    ensures BeValue(Reverse(s)) == LeValue(s)
  {
    BeValueIsReversedLe(Reverse(s));
    ReverseTwice(s);
  }

  /** Leading zero bytes do not change a big-endian value. */
  lemma {:induction false} BeValueLeadingZeros(k: nat, s: seq<byte>)
    ensures BeValue(Zeros(k) + s) == BeValue(s)
    decreases k + |s|
  {
    if s == [] {
      if k > 0 {
        assert Zeros(k) + [] == Zeros(k);
        assert Zeros(k)[..k - 1] == Zeros(k - 1);
        BeValueLeadingZeros(k - 1, []);
        assert Zeros(k - 1) + [] == Zeros(k - 1);
      }
    } else {
      var t := Zeros(k) + s;
      assert t[..|t| - 1] == Zeros(k) + s[..|s| - 1];
      BeValueLeadingZeros(k, s[..|s| - 1]);
    }
  }

  lemma {:induction false} BeValueOfMinimalBeBytes(n: nat)
    ensures BeValue(MinimalBeBytes(n)) == n
  {
    if n > 0 {
      BeValueOfMinimalBeBytes(n / 256);
      var m := MinimalBeBytes(n);
      assert m[..|m| - 1] == MinimalBeBytes(n / 256);
    }
  }

  lemma {:induction false} MinimalBeBytesLength(n: nat, k: nat)
    requires n < Pow256(k)
    ensures |MinimalBeBytes(n)| <= k
  {
    if n > 0 {
      MinimalBeBytesLength(n / 256, k - 1);
    }
  }
}

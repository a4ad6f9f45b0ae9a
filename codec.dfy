/** Conversions between 32-byte strings, big integers and field elements
    (BytesToBLSField, bigToFr, frToBig) and the decoding of blobs into polynomials
    (BlobToPolynomial, BlobsToPolynomials). */
module Codec {
  import opened Bytes
  import opened Field

  /** The byte-swap loop the source writes out three times: 16 rounds, each exchanging
      b[i] and b[31 - i], which turns a 32-byte string end for end. */
  method SwapEndianness(b: array<byte>)
    requires b.Length == 32
    modifies b
    ensures b[..] == Reverse(old(b[..]))
  {
    for i := 0 to 16
      invariant forall k :: 0 <= k < i ==> b[k] == old(b[31 - k]) && b[31 - k] == old(b[k])
      invariant forall k :: i <= k < 32 - i ==> b[k] == old(b[k])
    {
      b[31 - i], b[i] := b[i], b[31 - i];
    }
  }

  /** BytesToBLSField: the 32 bytes read as a little-endian integer, reduced modulo
      BLS_MODULUS. Every input gives a field element; there is no failure. */
  method BytesToBLSField(h: Bytes32) returns (out: Fr)
    ensures out == LeValue(h) % BLS_MODULUS
  {
    var b := new byte[32](i requires 0 <= i < 32 => h[i]);
    assert b[..] == h;
    SwapEndianness(b);
    assert BeValue(b[..]) == LeValue(h) by {
      BeValueOfReversed(h);
    }
    var zB := BeValue(b[..]) % BLS_MODULUS;
    assert zB < BLS_MODULUS < TWO_256 by {
      ModulusFits();
      Pow256Values();
    }
    var ok;
    out, ok := BigToFr(zB);
  }

  /** bigToFr: write big.Int.Bytes() right-aligned into a zeroed 32-byte buffer, swap it to
      little-endian and decode it with FrFrom32. The decode succeeds exactly when the
      number is below BLS_MODULUS. A number of more than 32 bytes makes the source's
      copy panic; the precondition excludes it. */
  method BigToFr(n: nat) returns (out: Fr, ok: bool)
    requires n < TWO_256
    ensures ok <==> n < BLS_MODULUS
    ensures ok ==> out == n
  {
    out := 0;
    var b := new byte[32](_ => 0);
    var inb := MinimalBeBytes(n);
    Pow256Values();
    MinimalBeBytesLength(n, 32);
    var offset := 32 - |inb|;
    forall i | offset <= i < 32 {
      b[i] := inb[i - offset];
    }
    assert b[..] == Zeros(offset) + inb;
    ghost var bigEndian := b[..];
    SwapEndianness(b);
    var decoded := FrFrom32(b[..]);
    BeValueIsReversedLe(bigEndian);
    BeValueLeadingZeros(offset, inb);
    BeValueOfMinimalBeBytes(n);
    ok := decoded.Some?;
    if ok {
      out := decoded.value;
    }
  }

  /** frToBig: encode with FrTo32, swap to big-endian and read it with big.Int.SetBytes;
      the number obtained is the element itself. */
  method FrToBig(val: Fr) returns (n: nat)
    ensures n == val
  {
    var v := FrTo32(val);
    var b := new byte[32](i requires 0 <= i < 32 => v[i]);
    assert b[..] == v;
    SwapEndianness(b);
    n := BeValue(b[..]);
    BeValueOfReversed(v);
    FrFrom32OfFrTo32(val);
  }

  /** A blob as the decoder reads it: Len() elements, At(i) being 32 bytes each. */
  type Blob = seq<Bytes32>

  /** Reference decoding of a blob: every element decoded, or None when any is not canonical. */
  function DecodeBlob(b: Blob): (r: Option<seq<Fr>>)
    ensures r.Some? <==> forall i :: 0 <= i < |b| ==> FrFrom32(b[i]).Some?
    ensures r.Some? ==> |r.value| == |b| && forall i :: 0 <= i < |b| ==> FrFrom32(b[i]) == Some(r.value[i])
  {
    if b == [] then Some([])
    else
      match (FrFrom32(b[0]), DecodeBlob(b[1..]))
      case (Some(x), Some(rest)) => Some([x] + rest)
      case _ => None
  }

  /** The blob whose elements are the canonical encodings of `p`. */
  function EncodeBlob(p: seq<Fr>): (b: Blob)
    ensures |b| == |p|
  {
    seq(|p|, i requires 0 <= i < |p| => FrTo32(p[i]))
  }

  /** Every polynomial is the decoding of exactly one blob: its encoding. */
  lemma DecodeEncodeBlob(p: seq<Fr>)
    ensures DecodeBlob(EncodeBlob(p)) == Some(p)
  {
    var b := EncodeBlob(p);
    forall i | 0 <= i < |p|
      ensures FrFrom32(b[i]) == Some(p[i])
    {
      FrFrom32OfFrTo32(p[i]);
    }
    assert DecodeBlob(b).value == p;
  }

  /** BlobToPolynomial: decode element by element into `frs`; at the first element that
      is not canonical return an empty polynomial and false, never a partial one. */
  method BlobToPolynomial(b: Blob) returns (poly: seq<Fr>, ok: bool)
    ensures ok <==> DecodeBlob(b).Some?
    ensures ok ==> DecodeBlob(b) == Some(poly)
    ensures !ok ==> poly == []
  {
    var l := |b|;
    var frs := new Fr[l];
    for i := 0 to l
      invariant forall j :: 0 <= j < i ==> FrFrom32(b[j]) == Some(frs[j])
    {
      var decoded := FrFrom32(b[i]);
      if decoded.None? {
        return [], false;
      }
      frs[i] := decoded.value;
    }
    poly, ok := frs[..], true;
    assert DecodeBlob(b).value == poly;
  }

  /** BlobsToPolynomials: decode every blob; at the first blob that fails return nil
      (the empty sequence) and false. */
  method BlobsToPolynomials(blobs: seq<Blob>) returns (polys: seq<seq<Fr>>, ok: bool)
    ensures ok <==> forall i :: 0 <= i < |blobs| ==> DecodeBlob(blobs[i]).Some?
    ensures ok ==> |polys| == |blobs|
    ensures ok ==> forall i :: 0 <= i < |blobs| ==> DecodeBlob(blobs[i]) == Some(polys[i])
    ensures !ok ==> polys == []
  {
    var l := |blobs|;
    var out := new seq<Fr>[l];
    for i := 0 to l
      invariant forall j :: 0 <= j < i ==> DecodeBlob(blobs[j]) == Some(out[j])
    {
      var poly, polyOk := BlobToPolynomial(blobs[i]);
      if !polyOk {
        return [], false;
      }
      out[i] := poly;
    }
    polys, ok := out[..], true;
  }
}

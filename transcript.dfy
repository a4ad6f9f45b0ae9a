/** The Fiat-Shamir transcript of HashToBLSField: the exact bytes fed to SHA-256 and the
    challenge derived from its digest. */
module Transcript {
  import opened Bytes
  import opened Field
  import Codec

  /** FIAT_SHAMIR_PROTOCOL_DOMAIN. */
  const FIAT_SHAMIR_PROTOCOL_DOMAIN: string := "FSBLOBVERIFY_V1_"

  /** A KZG commitment: a compressed G1 point of 48 bytes. */
  type Commitment = s: seq<byte> | |s| == 48 witness Zeros(48)

  /** The bytes of an ASCII string, as Go's []byte conversion gives them. */
  function AsciiBytes(s: string): (r: seq<byte>)
    requires forall i :: 0 <= i < |s| ==> s[i] as int < 128
    ensures |r| == |s| && forall i :: 0 <= i < |s| ==> r[i] == s[i] as int
  {
    seq(|s|, i requires 0 <= i < |s| => s[i] as int)
  }

  function DomainTag(): (r: seq<byte>)
    ensures |r| == 16
  {
    AsciiBytes(FIAT_SHAMIR_PROTOCOL_DOMAIN)
  }

  /** The 32-byte encodings of the elements of one polynomial, in order. */
  function ElementsBytes(poly: seq<Fr>): (r: seq<byte>)
    ensures |r| == 32 * |poly|
  {
    if poly == [] then [] else ElementsBytes(poly[..|poly| - 1]) + FrTo32(poly[|poly| - 1])
  }

  /** The element encodings of every polynomial, polynomial after polynomial. */
  function PolynomialsBytes(polys: seq<seq<Fr>>): seq<byte>
  {
    if polys == [] then [] else PolynomialsBytes(polys[..|polys| - 1]) + ElementsBytes(polys[|polys| - 1])
  }

  /** The 48 bytes of every commitment, in order. */
  function CommitmentsBytes(comms: seq<Commitment>): (r: seq<byte>)
    ensures |r| == 48 * |comms|
  {
    if comms == [] then [] else CommitmentsBytes(comms[..|comms| - 1]) + comms[|comms| - 1]
  }

  /** Everything HashToBLSField writes to the hash, in order: the protocol tag, the blob
      size and the number of polynomials as little-endian uint64, the polynomials' field
      elements, the commitments. */
  function TranscriptBytes(fieldElementsPerBlob: nat, polys: seq<seq<Fr>>, comms: seq<Commitment>): seq<byte>
  {
    DomainTag() + LeBytes(fieldElementsPerBlob, 8) + LeBytes(|polys|, 8)
      + PolynomialsBytes(polys) + CommitmentsBytes(comms)
  }

  /** The challenge: the SHA-256 digest of the transcript read by BytesToBLSField. */
  function Challenge(sha256: seq<byte> -> Bytes32, fieldElementsPerBlob: nat,
                     polys: seq<seq<Fr>>, comms: seq<Commitment>): Fr
  {
    LeValue(sha256(TranscriptBytes(fieldElementsPerBlob, polys, comms))) % BLS_MODULUS
  }

  /** A hash.Hash being fed: the bytes written so far; Sum applies the digest to them. */
  class Hasher {
    var written: seq<byte>
    const digest: seq<byte> -> Bytes32

    constructor (digest: seq<byte> -> Bytes32)
      ensures written == [] && this.digest == digest
    {
      this.digest := digest;
      written := [];
    }

    method Write(p: seq<byte>)
      modifies this
      ensures written == old(written) + p
    {
      written := written + p;
    }

    function Sum(): Bytes32
      reads this
    {
      digest(written)
    }
  }

  /** HashToBLSField: stream the transcript into a fresh SHA-256 state, then reduce the
      digest with BytesToBLSField. */
  method HashToBLSField(sha256: seq<byte> -> Bytes32, fieldElementsPerBlob: nat,
                        polys: seq<seq<Fr>>, comms: seq<Commitment>) returns (r: Fr)
    ensures r == Challenge(sha256, fieldElementsPerBlob, polys, comms)
  {
    var sha := new Hasher(sha256);
    sha.Write(AsciiBytes(FIAT_SHAMIR_PROTOCOL_DOMAIN));
    sha.Write(LeBytes(fieldElementsPerBlob, 8));
    sha.Write(LeBytes(|polys|, 8));
    ghost var header := sha.written;
    for j := 0 to |polys|
      invariant sha.written == header + PolynomialsBytes(polys[..j])
    {
      var poly := polys[j];
      ghost var before := sha.written;
      for i := 0 to |poly|
        invariant sha.written == before + ElementsBytes(poly[..i])
      {
        sha.Write(FrTo32(poly[i]));
        ElementsBytesSnoc(poly, i);
        AppendAssoc(before, ElementsBytes(poly[..i]), FrTo32(poly[i]));
      }
      Whole(poly);
      PolynomialsBytesSnoc(polys, j);
      AppendAssoc(header, PolynomialsBytes(polys[..j]), ElementsBytes(poly));
    }
    Whole(polys);
    ghost var body := sha.written;
    for k := 0 to |comms|
      invariant sha.written == body + CommitmentsBytes(comms[..k])
    {
      sha.Write(comms[k]);
      CommitmentsBytesSnoc(comms, k);
      AppendAssoc(body, CommitmentsBytes(comms[..k]), comms[k]);
    }
    Whole(comms);
    assert sha.written == TranscriptBytes(fieldElementsPerBlob, polys, comms);
    var hash := sha.Sum();
    assert hash == sha256(TranscriptBytes(fieldElementsPerBlob, polys, comms));
    r := Codec.BytesToBLSField(hash);
  }

  lemma AppendAssoc<T>(a: seq<T>, b: seq<T>, c: seq<T>)
    ensures a + b + c == a + (b + c)
  {
  }

  lemma Whole<T>(s: seq<T>)
    ensures s[..|s|] == s
  {
  }

  lemma PrefixSnoc<T>(s: seq<T>, i: nat)
    requires i < |s|
    ensures s[..i + 1][..i] == s[..i] && s[..i + 1][i] == s[i]
  {
  }

  /** One more element encoded: the encoding of a longer prefix extends the shorter one. */
  lemma ElementsBytesSnoc(poly: seq<Fr>, i: nat)
    requires i < |poly|
    ensures ElementsBytes(poly[..i + 1]) == ElementsBytes(poly[..i]) + FrTo32(poly[i])
  {
    PrefixSnoc(poly, i);
  }

  lemma PolynomialsBytesSnoc(polys: seq<seq<Fr>>, j: nat)
    requires j < |polys|
    ensures PolynomialsBytes(polys[..j + 1]) == PolynomialsBytes(polys[..j]) + ElementsBytes(polys[j])
  {
    PrefixSnoc(polys, j);
  }

  lemma CommitmentsBytesSnoc(comms: seq<Commitment>, k: nat)
    requires k < |comms|
    ensures CommitmentsBytes(comms[..k + 1]) == CommitmentsBytes(comms[..k]) + comms[k]
  {
    PrefixSnoc(comms, k);
  }

  // Layout of the transcript

  /** The number of field elements over all polynomials. */
  function TotalElements(polys: seq<seq<Fr>>): nat
  {
    if polys == [] then 0 else TotalElements(polys[..|polys| - 1]) + |polys[|polys| - 1]|
  }

  /** Every polynomial has `n` elements. */
  predicate Uniform(polys: seq<seq<Fr>>, n: nat)
  {
    forall j :: 0 <= j < |polys| ==> |polys[j]| == n
  }

  lemma {:induction false} PolynomialsBytesLength(polys: seq<seq<Fr>>)
    ensures |PolynomialsBytes(polys)| == 32 * TotalElements(polys)
  {
    if polys != [] {
      PolynomialsBytesLength(polys[..|polys| - 1]);
    }
  }

  lemma {:induction false} UniformTotal(polys: seq<seq<Fr>>, n: nat)
    requires Uniform(polys, n)
    ensures TotalElements(polys) == n * |polys|
  {
    if polys != [] {
      UniformTotal(polys[..|polys| - 1], n);
    }
  }

  /** The transcript is 32 header bytes, 32 bytes per field element and 48 per commitment. */
  lemma TranscriptLength(fieldElementsPerBlob: nat, polys: seq<seq<Fr>>, comms: seq<Commitment>)
    ensures |TranscriptBytes(fieldElementsPerBlob, polys, comms)|
            == 32 + 32 * TotalElements(polys) + 48 * |comms|
  {
    PolynomialsBytesLength(polys);
  }

  /** The header: the 16-byte tag, then the blob size and the polynomial count, each as
      eight little-endian bytes. */
  lemma TranscriptHeader(fieldElementsPerBlob: u64, polys: seq<seq<Fr>>, comms: seq<Commitment>)
    requires |polys| < TWO_64
    ensures var t := TranscriptBytes(fieldElementsPerBlob, polys, comms);
      |t| >= 32
      && t[..16] == AsciiBytes(FIAT_SHAMIR_PROTOCOL_DOMAIN)
      && LeValue(t[16..24]) == fieldElementsPerBlob
      && LeValue(t[24..32]) == |polys|
  {
    var t := TranscriptBytes(fieldElementsPerBlob, polys, comms);
    assert t[16..24] == LeBytes(fieldElementsPerBlob, 8);
    assert t[24..32] == LeBytes(|polys|, 8);
    Pow256Values();
    LeValueOfLeBytes(fieldElementsPerBlob, 8);
    LeValueOfLeBytes(|polys|, 8);
  }

  lemma {:induction false} ElementsBytesAt(poly: seq<Fr>, i: nat)
    requires i < |poly|
    ensures ElementsBytes(poly)[32 * i..32 * i + 32] == FrTo32(poly[i])
  {
    var init := poly[..|poly| - 1];
    if i < |poly| - 1 {
      ElementsBytesAt(init, i);
      assert init[i] == poly[i];
    }
  }

  lemma {:induction false} CommitmentsBytesAt(comms: seq<Commitment>, k: nat)
    requires k < |comms|
    ensures CommitmentsBytes(comms)[48 * k..48 * k + 48] == comms[k]
  {
    var init := comms[..|comms| - 1];
    if k < |comms| - 1 {
      CommitmentsBytesAt(init, k);
      assert init[k] == comms[k];
    }
  }

  lemma {:induction false} PolynomialsBytesAppend(a: seq<seq<Fr>>, b: seq<seq<Fr>>)
    ensures PolynomialsBytes(a + b) == PolynomialsBytes(a) + PolynomialsBytes(b)
    ensures TotalElements(a + b) == TotalElements(a) + TotalElements(b)
  {
    if b != [] {
      var init := b[..|b| - 1];
      assert (a + b)[..|a + b| - 1] == a + init;
      PolynomialsBytesAppend(a, init);
    } else {
      assert a + b == a;
    }
  }

  /** A slice of the middle part of a concatenation. */
  lemma SliceOfConcat(a: seq<byte>, b: seq<byte>, c: seq<byte>, lo: nat, hi: nat)
    requires lo <= hi <= |b|
    ensures (a + b + c)[|a| + lo..|a| + hi] == b[lo..hi]
  {
    var s := a + b + c;
    forall k | lo <= k < hi
      ensures s[|a| + k] == b[k]
    {
    }
  }

  /** The encoding of a batch splits around any one of its polynomials. */
  lemma PolynomialsBytesSplit(polys: seq<seq<Fr>>, j: nat)
    requires j < |polys|
    ensures PolynomialsBytes(polys)
            == PolynomialsBytes(polys[..j]) + ElementsBytes(polys[j]) + PolynomialsBytes(polys[j + 1..])
  {
    var before, single, rest := polys[..j], [polys[j]], polys[j + 1..];
    SplitAt(polys, j);
    PolynomialsBytesAppend(before + single, rest);
    PolynomialsBytesAppend(before, single);
    assert single[..0] == [];
  }

  lemma LastSplit<T>(s: seq<T>)
    requires s != []
    ensures s == s[..|s| - 1] + [s[|s| - 1]]
  {
  }

  lemma SplitAt<T>(s: seq<T>, j: nat)
    requires j < |s|
    ensures s == s[..j] + [s[j]] + s[j + 1..]
  {
  }

  /** Element i of polynomial j is encoded after all elements of the polynomials before j
      and the elements of polynomial j before i. */
  lemma PolynomialsBytesAt(polys: seq<seq<Fr>>, j: nat, i: nat)
    requires j < |polys| && i < |polys[j]|
    ensures var offset := 32 * (TotalElements(polys[..j]) + i);
      offset + 32 <= |PolynomialsBytes(polys)|
      && PolynomialsBytes(polys)[offset..offset + 32] == FrTo32(polys[j][i])
  {
    var a, b, c := PolynomialsBytes(polys[..j]), ElementsBytes(polys[j]), PolynomialsBytes(polys[j + 1..]);
    PolynomialsBytesSplit(polys, j);
    PolynomialsBytesLength(polys[..j]);
    ElementsBytesAt(polys[j], i);
    SliceOfConcat(a, b, c, 32 * i, 32 * i + 32);
  }

  /** Where each field element sits in the transcript: polynomial after polynomial,
      element after element, from byte 32 on. */
  lemma TranscriptElementAt(fieldElementsPerBlob: nat, polys: seq<seq<Fr>>, comms: seq<Commitment>,
                            j: nat, i: nat)
    requires j < |polys| && i < |polys[j]|
    ensures var t := TranscriptBytes(fieldElementsPerBlob, polys, comms);
      var offset := 32 + 32 * (TotalElements(polys[..j]) + i);
      offset + 32 <= |t| && t[offset..offset + 32] == FrTo32(polys[j][i])
  {
    PolynomialsBytesAt(polys, j, i);
    var header := DomainTag() + LeBytes(fieldElementsPerBlob, 8) + LeBytes(|polys|, 8);
    var pb := PolynomialsBytes(polys);
    assert TranscriptBytes(fieldElementsPerBlob, polys, comms) == header + pb + CommitmentsBytes(comms);
    var offset := 32 * (TotalElements(polys[..j]) + i);
    SliceOfConcat(header, pb, CommitmentsBytes(comms), offset, offset + 32);
  }

  /** Where each commitment sits in the transcript: after every field element, 48 bytes each. */
  lemma TranscriptCommitmentAt(fieldElementsPerBlob: nat, polys: seq<seq<Fr>>, comms: seq<Commitment>,
                               k: nat)
    requires k < |comms|
    ensures var t := TranscriptBytes(fieldElementsPerBlob, polys, comms);
      var offset := 32 + 32 * TotalElements(polys) + 48 * k;
      offset + 48 <= |t| && t[offset..offset + 48] == comms[k]
  {
    PolynomialsBytesLength(polys);
    CommitmentsBytesAt(comms, k);
    var prefix := DomainTag() + LeBytes(fieldElementsPerBlob, 8) + LeBytes(|polys|, 8) + PolynomialsBytes(polys);
    var cb := CommitmentsBytes(comms);
    assert TranscriptBytes(fieldElementsPerBlob, polys, comms) == prefix + cb + [];
    SliceOfConcat(prefix, cb, [], 48 * k, 48 * k + 48);
  }

  // The transcript determines its inputs

  lemma SplitEqual(a: seq<byte>, b: seq<byte>, c: seq<byte>, d: seq<byte>)
    requires a + b == c + d && |a| == |c|
    ensures a == c && b == d
  {
    assert a == (a + b)[..|a|];
    assert c == (c + d)[..|c|];
    assert b == (a + b)[|a|..];
    assert d == (c + d)[|c|..];
  }

  lemma {:induction false} ElementsBytesInjective(s1: seq<Fr>, s2: seq<Fr>)
    requires |s1| == |s2| && ElementsBytes(s1) == ElementsBytes(s2)
    ensures s1 == s2
  {
    if s1 != [] {
      var n := |s1| - 1;
      SplitEqual(ElementsBytes(s1[..n]), FrTo32(s1[n]), ElementsBytes(s2[..n]), FrTo32(s2[n]));
      FrTo32Injective(s1[n], s2[n]);
      ElementsBytesInjective(s1[..n], s2[..n]);
      LastSplit(s1);
      LastSplit(s2);
    }
  }

  lemma {:induction false} PolynomialsBytesInjective(p1: seq<seq<Fr>>, p2: seq<seq<Fr>>, n: nat)
    requires |p1| == |p2| && Uniform(p1, n) && Uniform(p2, n)
    requires PolynomialsBytes(p1) == PolynomialsBytes(p2)
    ensures p1 == p2
  {
    if p1 != [] {
      var m := |p1| - 1;
      var i1, i2 := p1[..m], p2[..m];
      PolynomialsBytesLength(i1);
      PolynomialsBytesLength(i2);
      UniformTotal(i1, n);
      UniformTotal(i2, n);
      SplitEqual(PolynomialsBytes(i1), ElementsBytes(p1[m]), PolynomialsBytes(i2), ElementsBytes(p2[m]));
      ElementsBytesInjective(p1[m], p2[m]);
      PolynomialsBytesInjective(i1, i2, n);
      LastSplit(p1);
      LastSplit(p2);
    }
  }

  lemma {:induction false} CommitmentsBytesInjective(c1: seq<Commitment>, c2: seq<Commitment>)
    requires |c1| == |c2| && CommitmentsBytes(c1) == CommitmentsBytes(c2)
    ensures c1 == c2
  {
    if c1 != [] {
      var n := |c1| - 1;
      SplitEqual(CommitmentsBytes(c1[..n]), c1[n], CommitmentsBytes(c2[..n]), c2[n]);
      CommitmentsBytesInjective(c1[..n], c2[..n]);
      LastSplit(c1);
      LastSplit(c2);
    }
  }

  /** For polynomials of the announced blob size, equal transcripts come only from equal
      polynomials and equal commitments, in the same order. */
  lemma TranscriptInjective(fieldElementsPerBlob: nat, p1: seq<seq<Fr>>, c1: seq<Commitment>,
                            p2: seq<seq<Fr>>, c2: seq<Commitment>)
    requires Uniform(p1, fieldElementsPerBlob) && Uniform(p2, fieldElementsPerBlob)
    requires |p1| < TWO_64 && |p2| < TWO_64
    requires TranscriptBytes(fieldElementsPerBlob, p1, c1) == TranscriptBytes(fieldElementsPerBlob, p2, c2)
    ensures p1 == p2 && c1 == c2
  {
    var tag := DomainTag() + LeBytes(fieldElementsPerBlob, 8);
    var h1, h2 := tag + LeBytes(|p1|, 8), tag + LeBytes(|p2|, 8);
    var r1 := PolynomialsBytes(p1) + CommitmentsBytes(c1);
    var r2 := PolynomialsBytes(p2) + CommitmentsBytes(c2);
    assert TranscriptBytes(fieldElementsPerBlob, p1, c1) == h1 + r1;
    assert TranscriptBytes(fieldElementsPerBlob, p2, c2) == h2 + r2;
    SplitEqual(h1, r1, h2, r2);
    SplitEqual(tag, LeBytes(|p1|, 8), tag, LeBytes(|p2|, 8));
    Pow256Values();
    LeValueOfLeBytes(|p1|, 8);
    LeValueOfLeBytes(|p2|, 8);
    PolynomialsBytesLength(p1);
    PolynomialsBytesLength(p2);
    UniformTotal(p1, fieldElementsPerBlob);
    UniformTotal(p2, fieldElementsPerBlob);
    SplitEqual(PolynomialsBytes(p1), CommitmentsBytes(c1), PolynomialsBytes(p2), CommitmentsBytes(c2));
    PolynomialsBytesInjective(p1, p2, fieldElementsPerBlob);
    CommitmentsBytesInjective(c1, c2);
  }

  /** Exchanging two different polynomials of a batch changes the transcript, so the
      challenge is bound to the order of the batch. */
  lemma SwapChangesTranscript(fieldElementsPerBlob: nat, polys: seq<seq<Fr>>, comms: seq<Commitment>,
                              i: nat, j: nat)
    requires Uniform(polys, fieldElementsPerBlob) && |polys| < TWO_64
    requires i < |polys| && j < |polys| && polys[i] != polys[j]
    ensures TranscriptBytes(fieldElementsPerBlob, polys[i := polys[j]][j := polys[i]], comms)
            != TranscriptBytes(fieldElementsPerBlob, polys, comms)
  {
    var swapped := polys[i := polys[j]][j := polys[i]];
    assert Uniform(swapped, fieldElementsPerBlob);
    assert swapped[j] != polys[j];
    if TranscriptBytes(fieldElementsPerBlob, swapped, comms) == TranscriptBytes(fieldElementsPerBlob, polys, comms) {
      TranscriptInjective(fieldElementsPerBlob, swapped, comms, polys, comms);
      assert false;
    }
  }
}

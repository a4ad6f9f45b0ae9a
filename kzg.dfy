/** The field-element side of the EIP-4844 KZG helpers: compute_powers, the quotient of
    compute_kzg_proof and the challenge of compute_aggregated_poly_and_commitment. The curve
    steps that follow each of them (LinCombG1 and point compression) are not modelled; each
    operation returns the field elements it would hand to them. */
module Kzg {
  import opened Bytes
  import opened Field
  import Transcript

  /** The errors the helpers return, with the text of their errors.New messages. */
  datatype Error = InvalidLength | InvalidZChallenge | EmptyBatch
  {
    function Message(): string
    {
      match this
      case InvalidLength => "polynomial has invalid length"
      case InvalidZChallenge => "invalid z challenge"
      case EmptyBatch => "powers can't be 0 length"
    }
  }

  datatype Result<T> = Ok(value: T) | Err(error: Error)

  /** ComputePowers: n successive powers of r, starting from 1, each the previous one
      times r. */
  method ComputePowers(r: Fr, n: nat) returns (powers: seq<Fr>)
    ensures |powers| == n
    ensures forall i :: 0 <= i < n ==> powers[i] == FrPow(r, i)
  {
    var currentPower: Fr := 1;
    var a := new Fr[n];
    for i := 0 to n
      invariant currentPower == FrPow(r, i)
      invariant forall j :: 0 <= j < i ==> a[j] == FrPow(r, j)
    {
      a[i] := currentPower;
      currentPower := Mul(currentPower, r);
    }
    powers := a[..];
  }

  /** The powers multiply like exponents add: powers[i + j] == powers[i] * powers[j]. */
  lemma PowersMultiply(r: Fr, powers: seq<Fr>, i: nat, j: nat)
    requires forall k :: 0 <= k < |powers| ==> powers[k] == FrPow(r, k)
    requires i + j < |powers|
    ensures powers[i + j] == Mul(powers[i], powers[j])
  {
    FrPowAdd(r, i, j);
  }

  /** ComputeKZGProof up to the commitment of the quotient. `y` is the value of the
      polynomial at `z` and `domain` is DomainFr, the evaluation domain. In the source's
      order: every element is shifted by -y; a polynomial whose length differs from the
      domain's is rejected; a `z` equal to a domain point is rejected at the first such
      point; otherwise quotient[i] = (polynomial[i] - y) / (domain[i] - z). */
  method ComputeKZGProof(polynomial: seq<Fr>, z: Fr, y: Fr, domain: seq<Fr>) returns (res: Result<seq<Fr>>)
    ensures |polynomial| != |domain| ==> res == Err(InvalidLength)
    ensures |polynomial| == |domain| && z in domain ==> res == Err(InvalidZChallenge)
    ensures |polynomial| == |domain| && z !in domain ==> res.Ok?
    ensures res.Ok? ==> |res.value| == |polynomial| == |domain|
    ensures res.Ok? ==> forall i :: 0 <= i < |polynomial| ==>
              Sub(domain[i], z) != 0 && res.value[i] == Div(Sub(polynomial[i], y), Sub(domain[i], z))
    ensures res.Ok? ==> forall i :: 0 <= i < |polynomial| && Coprime(Sub(domain[i], z)) ==>
              Mul(res.value[i], Sub(domain[i], z)) == Sub(polynomial[i], y)
  {
    var n := |polynomial|;
    var shifted := new Fr[n];
    for i := 0 to n
      invariant forall j :: 0 <= j < i ==> shifted[j] == Sub(polynomial[j], y)
    {
      shifted[i] := Sub(polynomial[i], y);
    }
    var denominator := new Fr[n];
    if n != |domain| {
      return Err(InvalidLength);
    }
    for i := 0 to n
      modifies denominator
      invariant forall j :: 0 <= j < i ==> domain[j] != z && denominator[j] == Sub(domain[j], z)
    {
      if domain[i] == z {
        return Err(InvalidZChallenge);
      }
      denominator[i] := Sub(domain[i], z);
    }
    var quotient := new Fr[n];
    for i := 0 to n
      modifies quotient
      invariant forall j :: 0 <= j < i ==> quotient[j] == Div(shifted[j], denominator[j])
    {
      quotient[i] := Div(shifted[i], denominator[i]);
    }
    res := Ok(quotient[..]);
    forall i | 0 <= i < n
      ensures Sub(domain[i], z) != 0 && quotient[i] == Div(Sub(polynomial[i], y), Sub(domain[i], z))
      ensures Coprime(Sub(domain[i], z)) ==> Mul(quotient[i], Sub(domain[i], z)) == Sub(polynomial[i], y)
    {
      QuotientEntry(polynomial[i], y, domain[i], z);
    }
  }

  /** One entry of the quotient: the denominator of a point other than z is not zero, and
      when it is invertible the quotient times it gives back the shifted value. */
  lemma QuotientEntry(p: Fr, y: Fr, w: Fr, z: Fr)
    requires w != z
    ensures Sub(w, z) != 0
    ensures Coprime(Sub(w, z)) ==> Mul(Div(Sub(p, y), Sub(w, z)), Sub(w, z)) == Sub(p, y)
  {
    SubZeroIff(w, z);
    if Coprime(Sub(w, z)) {
      DivTimesDivisor(Sub(p, y), Sub(w, z));
    }
  }

  /** What ComputeAggregatedPolyAndCommitment derives in the field: the challenge r, its
      powers (the weights of the linear combinations) and the evaluation challenge. */
  datatype Aggregation = Aggregation(r: Fr, powers: seq<Fr>, evaluationChallenge: Fr)

  /** ComputeAggregatedPolyAndCommitment up to the linear combinations: hash the batch to
      r, take len(blobs) powers of r, reject an empty batch, and multiply r by the last
      power. */
  method ComputeAggregatedPolyAndCommitment(sha256: seq<byte> -> Bytes32, fieldElementsPerBlob: nat,
                                            blobs: seq<seq<Fr>>, commitments: seq<Transcript.Commitment>)
    returns (res: Result<Aggregation>)
    ensures blobs == [] <==> res == Err(EmptyBatch)
    ensures blobs != [] ==> res.Ok?
    ensures res.Ok? ==> res.value.r == Transcript.Challenge(sha256, fieldElementsPerBlob, blobs, commitments)
    ensures res.Ok? ==> |res.value.powers| == |blobs|
    ensures res.Ok? ==> forall i :: 0 <= i < |blobs| ==> res.value.powers[i] == FrPow(res.value.r, i)
    ensures res.Ok? ==> res.value.evaluationChallenge == FrPow(res.value.r, |blobs|)
  {
    var r := Transcript.HashToBLSField(sha256, fieldElementsPerBlob, blobs, commitments);
    var powers := ComputePowers(r, |blobs|);
    if |powers| == 0 {
      return Err(EmptyBatch);
    }
    var m := |powers|;
    var evaluationChallenge := Mul(r, powers[m - 1]);
    assert evaluationChallenge == FrPow(r, m) by {
      MulComm(r, FrPow(r, m - 1));
    }
    res := Ok(Aggregation(r, powers, evaluationChallenge));
  }
}

/** The BLS12-381 scalar field Fr (bls.Fr), its arithmetic and its 32-byte codec
    (bls.FrFrom32 / bls.FrTo32). */
module Field {
  import opened Bytes
  import opened Arith

  datatype Option<T> = None | Some(value: T)

  /** The order r of the BLS12-381 scalar field (BLSModulus). */
  const BLS_MODULUS: nat := 0x73eda753299d7d483339d80809a1d80553bda402fffe5bfeffffffff00000001

  /** A field element in canonical form. */
  type Fr = x: int | 0 <= x < BLS_MODULUS

  lemma ModulusFits()
    ensures 1 < BLS_MODULUS < Pow256(32)
  {
    Pow256Values();
  }

  /** bls.SubModFr. */
  function Sub(a: Fr, b: Fr): Fr
  {
    (a - b) % BLS_MODULUS
  }

  /** bls.MulModFr. */
  function Mul(a: Fr, b: Fr): Fr
  {
    (a * b) % BLS_MODULUS
  }

  /** A difference is zero exactly when the operands are equal. */
  lemma SubZeroIff(a: Fr, b: Fr)
    ensures Sub(a, b) == 0 <==> a == b
  {
  }

  /** Bezout coefficients: s * a + t * b == gcd. */
  datatype Bezout = Bezout(gcd: nat, s: int, t: int)

  lemma DividesCombination(g: nat, x: int, y: int, k: int)
    requires g > 0 && x % g == 0 && y % g == 0
    ensures (k * x + y) % g == 0
  {
    var u, v := x / g, y / g;
    assert x == u * g && y == v * g;
    assert k * x + y == (k * u + v) * g;
    MultipleMod(g, k * u + v);
  }

  /** The extended Euclidean algorithm: the greatest common divisor of `a` and `b`
      as a common divisor that is an integer combination of both. */
  function ExtGcd(a: nat, b: nat): (r: Bezout)
    ensures r.s * a + r.t * b == r.gcd
    ensures r.gcd == 0 <==> a == 0 && b == 0
    ensures r.gcd > 0 ==> a % r.gcd == 0 && b % r.gcd == 0
    decreases b
  {
    if b == 0 then
      Bezout(a, 1, 0)
    else
      var r' := ExtGcd(b, a % b);
      BezoutStep(a, b, r'.gcd, r'.s, r'.t);
      Bezout(r'.gcd, r'.t, r'.s - a / b * r'.t)
  }

  /** One step of Euclid: a combination of b and a % b is a combination of a and b, and a
      common divisor of b and a % b divides a. */
  lemma BezoutStep(a: nat, b: nat, g: nat, s: int, t: int)
    requires b > 0 && s * b + t * (a % b) == g
    requires g > 0 ==> b % g == 0 && (a % b) % g == 0
    ensures t * a + (s - a / b * t) * b == g
    ensures g > 0 ==> a % g == 0
  {
    var q := a / b;
    assert a == q * b + a % b;
    assert t * a == t * q * b + t * (a % b);
    assert (s - q * t) * b == s * b - t * q * b;
    if g > 0 {
      DividesCombination(g, b, a % b, q);
    }
  }

  /** `d` has a multiplicative inverse modulo the field order. Every nonzero element
      does, since BLS_MODULUS is prime; that fact is not proved here. */
  predicate Coprime(d: Fr)
  {
    ExtGcd(d, BLS_MODULUS).gcd == 1
  }

  /** The multiplicative inverse; 0 maps to 0. */
  function Inv(d: Fr): Fr
  {
    ExtGcd(d, BLS_MODULUS).s % BLS_MODULUS
  }

  /** bls.DivModFr: multiplication by the inverse of the divisor. */
  function Div(a: Fr, d: Fr): Fr
  {
    Mul(a, Inv(d))
  }

  lemma ModMulLeft(x: int, y: int)
    ensures ((x % BLS_MODULUS) * y) % BLS_MODULUS == (x * y) % BLS_MODULUS
  {
    ReduceFactorMod(x, y, BLS_MODULUS);
  }

  lemma MulAssoc(a: Fr, b: Fr, c: Fr)
    ensures Mul(Mul(a, b), c) == Mul(a, Mul(b, c))
  {
    ModMulLeft(a * b, c);
    ModMulLeft(b * c, a);
    assert a * (b * c) == (b * c) * a;
    assert (a * b) * c == a * (b * c);
  }

  lemma MulComm(a: Fr, b: Fr)
    ensures Mul(a, b) == Mul(b, a)
  {
    assert a * b == b * a;
  }

  /** The inverse of a unit cancels it. */
  lemma InvCancels(d: Fr)
    requires Coprime(d)
    ensures Mul(Inv(d), d) == 1
  {
    var e := ExtGcd(d, BLS_MODULUS);
    ModMulLeft(e.s, d);
    DivModUnique(e.s * d, BLS_MODULUS, -e.t, 1);
  }

  /** Division undoes multiplication by a unit: (a / d) * d == a. */
  lemma DivTimesDivisor(a: Fr, d: Fr)
    requires Coprime(d)
    ensures Mul(Div(a, d), d) == a
  {
    InvCancels(d);
    CancelFactor(a, Inv(d), d);
  }

  lemma CancelFactor(a: Fr, i: Fr, d: Fr)
    requires Mul(i, d) == 1
    ensures Mul(Mul(a, i), d) == a
  {
    MulAssoc(a, i, d);
  }

  /** Integer power. */
  function Pow(x: int, i: nat): int
  {
    if i == 0 then 1 else Pow(x, i - 1) * x
  }

  /** r^i in the field, by repeated multiplication. */
  function FrPow(r: Fr, i: nat): Fr
  {
    if i == 0 then 1 else Mul(FrPow(r, i - 1), r)
  }

  /** The field power is the integer power reduced modulo BLS_MODULUS. */
  lemma {:induction false} FrPowIsPowMod(r: Fr, i: nat)
    ensures FrPow(r, i) == Pow(r, i) % BLS_MODULUS
  {
    if i > 0 {
      FrPowIsPowMod(r, i - 1);
      ModMulLeft(Pow(r, i - 1), r);
    }
  }

  lemma MulOne(a: Fr)
    ensures Mul(a, 1) == a
  {
    assert a * 1 == a;
  }

  /** r^(i + j) == r^i * r^j. */
  lemma {:induction false} FrPowAdd(r: Fr, i: nat, j: nat)
    ensures FrPow(r, i + j) == Mul(FrPow(r, i), FrPow(r, j))
  {
    if j > 0 {
      calc {
        FrPow(r, i + j);
        Mul(FrPow(r, i + j - 1), r);
        { FrPowAdd(r, i, j - 1); }
        Mul(Mul(FrPow(r, i), FrPow(r, j - 1)), r);
        { MulAssoc(FrPow(r, i), FrPow(r, j - 1), r); }
        Mul(FrPow(r, i), Mul(FrPow(r, j - 1), r));
        Mul(FrPow(r, i), FrPow(r, j));
      }
    } else {
      MulOne(FrPow(r, i));
    }
  }

  /** bls.FrFrom32: read 32 bytes as a little-endian integer, accepted only when canonical. */
  function FrFrom32(b: Bytes32): Option<Fr>
  {
    var v := LeValue(b);
    if v < BLS_MODULUS then Some(v) else None
  }

  /** bls.FrTo32: the canonical little-endian 32-byte encoding. */
  function FrTo32(x: Fr): Bytes32
  {
    LeBytes(x, 32)
  }

  /** Encoding then decoding gives the element back. */
  lemma FrFrom32OfFrTo32(x: Fr)
    ensures FrFrom32(FrTo32(x)) == Some(x)
  {
    ModulusFits();
    LeValueOfLeBytes(x, 32);
  }

  /** Decoding accepts exactly the canonical encodings: whatever decodes re-encodes to itself. */
  lemma FrTo32OfFrFrom32(b: Bytes32)
    ensures FrFrom32(b).Some? <==> LeValue(b) < BLS_MODULUS
    ensures FrFrom32(b).Some? ==> FrTo32(FrFrom32(b).value) == b
  {
    LeBytesOfLeValue(b);
  }

  /** Distinct elements have distinct encodings. */
  lemma FrTo32Injective(x: Fr, y: Fr)
    requires FrTo32(x) == FrTo32(y)
    ensures x == y
  {
    FrFrom32OfFrTo32(x);
    FrFrom32OfFrTo32(y);
  }
}

/** The bit-reversal permutation of eth/helpers.go (isPowerOfTwo, reverseBits,
    bitReversalPermutation), which reorders the Lagrange setup once at load time. */
module BitReversal {
  import opened Bytes
  import opened Arith

  function Pow2(k: nat): (r: nat)
    ensures r > 0
  {
    if k == 0 then 1 else 2 * Pow2(k - 1)
  }

  lemma Pow2Of64()
    ensures Pow2(64) == TWO_64
  {
    assert Pow2(2) == 4;
    assert Pow2(4) == 16 by { Pow2Add(2, 2); }
    assert Pow2(8) == 0x100 by { Pow2Add(4, 4); }
    assert Pow2(16) == 0x1_0000 by { Pow2Add(8, 8); }
    assert Pow2(32) == 0x1_0000_0000 by { Pow2Add(16, 16); }
    assert Pow2(64) == Pow2(32) * Pow2(32) by { Pow2Add(32, 32); }
  }

  /** Bitwise AND of unsigned integers, Go's `&`. */
  function BitAnd(a: nat, b: nat): nat
  {
    if a == 0 || b == 0 then 0
    else 2 * BitAnd(a / 2, b / 2) + (if a % 2 == 1 && b % 2 == 1 then 1 else 0)
  }

  /** The number of bits needed to write `x`, bits.Len64. */
  function BitLen(x: nat): nat
  {
    if x == 0 then 0 else 1 + BitLen(x / 2)
  }

  /** The exponent of the largest power of two not above `x` (0 for 0 and 1). */
  function Log2(x: nat): nat
  {
    if x <= 1 then 0 else 1 + Log2(x / 2)
  }

  /** The `k` low-order bits of `n` written in the opposite order:
      bit j of `n` becomes bit k - 1 - j of the result. */
  function Rev(n: int, k: nat): nat
    decreases k
  {
    if k == 0 then 0 else (if n % 2 == 1 then Pow2(k - 1) else 0) + Rev(n / 2, k - 1)
  }

  /** bits.Reverse64: all 64 bits of a uint64 in the opposite order. */
  function Reverse64(n: u64): nat
  {
    Rev(n, 64)
  }

  /** isPowerOfTwo: `value > 0 && value & (value - 1) == 0` holds exactly of the powers of two. */
  function IsPowerOfTwo(value: u64): (r: bool)
    ensures r <==> value > 0 && value == Pow2(Log2(value))
  {
    PowerOfTwoBitTrick(value);
    value > 0 && BitAnd(value, value - 1) == 0
  }

  /** reverseBits: `bits.Reverse64(n) >> (65 - bits.Len64(order))`. With order == 2^k the
      shift is 64 - k, so the result is the k-bit reversal of `n`; for order == 1 the shift
      is 64, which Go defines to give 0 (here the quotient of a 64-bit number by 2^64).
      A non-power-of-two order panics in the source; here it is excluded by the precondition. */
  function ReverseBits(n: u64, order: u64): (r: u64)
    requires IsPowerOfTwo(order)
    ensures r == Rev(n, Log2(order))
    ensures r < order
  {
    ReverseBitsIsRev(n, order);
    Reverse64(n) / Pow2(65 - BitLen(order))
  }

  /** Reversing the index twice gives it back. */
  lemma ReverseBitsInvolution(i: u64, order: u64)
    requires IsPowerOfTwo(order) && i < order
    ensures ReverseBits(ReverseBits(i, order), order) == i
  {
    RevInvolution(i, Log2(order));
  }

  /** The lengths bitReversalPermutation accepts: a power of two, or empty (then the loop
      body, and with it the panic of reverseBits, is never reached). */
  predicate PermutableLength(n: nat)
  {
    n < TWO_64 && (n == 0 || IsPowerOfTwo(n))
  }

  /** The sequence whose element i is element reverseBits(i) of `l`. */
  function BitReversed<T>(l: seq<T>): (r: seq<T>)
    requires PermutableLength(|l|)
    ensures |r| == |l|
  {
    seq(|l|, i requires 0 <= i < |l| => l[ReverseBits(i, |l|)])
  }

  /** bitReversalPermutation: allocate `out` and fill out[i] := l[reverseBits(i, len(l))]. */
  method BitReversalPermutation<T(0)>(l: seq<T>) returns (out: seq<T>)
    requires PermutableLength(|l|)
    ensures |out| == |l|
    ensures forall i :: 0 <= i < |l| ==> out[i] == l[ReverseBits(i, |l|)]
    ensures multiset(out) == multiset(l)
    ensures out == BitReversed(l)
  {
    var a := new T[|l|];
    ghost var spec := BitReversed(l);
    for i := 0 to |l|
      invariant forall j :: 0 <= j < i ==> a[j] == spec[j]
    {
      a[i] := l[ReverseBits(i, |l|)];
      assert a[i] == spec[i];
    }
    out := a[..];
    assert out == spec;
    BitReversedPermutes(l);
  }

  /** Applying the permutation twice gives the original sequence. */
  lemma BitReversedInvolution<T>(l: seq<T>)
    requires PermutableLength(|l|)
    ensures BitReversed(BitReversed(l)) == l
  {
    var t := BitReversed(l);
    forall i | 0 <= i < |l|
      ensures BitReversed(t)[i] == l[i]
    {
      ReverseBitsInvolution(i, |l|);
    }
  }

  /** The permutation rearranges the elements and neither drops nor duplicates any. */
  lemma BitReversedPermutes<T>(l: seq<T>)
    requires PermutableLength(|l|)
    ensures multiset(BitReversed(l)) == multiset(l)
  {
    var t := BitReversed(l);
    if |l| > 0 {
      var k := Log2(|l|);
      forall x: T
        ensures multiset(t)[x] == multiset(l)[x]
      {
        MultiplicityIsPositions(t, x);
        MultiplicityIsPositions(l, x);
        var pt := Positions(t, x);
        RevImageSize(pt, k);
        forall j | j in Positions(l, x)
          ensures j in RevImage(pt, k)
        {
          RevBound(j, k);
          RevInvolution(j, k);
          assert t[Rev(j, k)] == l[j];
          assert Rev(j, k) in pt;
        }
        forall i | i in pt
          ensures Rev(i, k) in Positions(l, x)
        {
        }
        assert Positions(l, x) == RevImage(pt, k);
      }
    }
  }

  // Bits and powers

  lemma {:induction false} Pow2Add(a: nat, b: nat)
    ensures Pow2(a + b) == Pow2(a) * Pow2(b)
  {
    if a > 0 {
      Pow2Add(a - 1, b);
    }
  }

  lemma {:induction false} Pow2Monotone(a: nat, b: nat)
    requires a < b
    ensures Pow2(a) < Pow2(b)
  {
    if a + 1 < b {
      Pow2Monotone(a, b - 1);
    }
  }

  lemma {:induction false} Pow2Logs(k: nat)
    ensures Log2(Pow2(k)) == k && BitLen(Pow2(k)) == k + 1
  {
    if k > 0 {
      Pow2Logs(k - 1);
      assert Pow2(k) / 2 == Pow2(k - 1);
    }
  }

  lemma {:induction false} BitAndSelf(x: nat)
    ensures BitAnd(x, x) == x
  {
    if x > 0 {
      BitAndSelf(x / 2);
    }
  }

  /** v & (v - 1) clears the lowest set bit of v, so it is zero exactly when v has one bit. */
  lemma {:induction false} PowerOfTwoBitTrick(v: nat)
    ensures v > 0 ==> (BitAnd(v, v - 1) == 0 <==> v == Pow2(Log2(v)))
  {
    if v > 1 {
      if v % 2 == 1 {
        assert (v - 1) / 2 == v / 2;
        BitAndSelf(v / 2);
        assert BitAnd(v, v - 1) == 2 * (v / 2);
        assert Pow2(Log2(v)) == 2 * Pow2(Log2(v / 2));
      } else {
        assert (v - 1) / 2 == v / 2 - 1;
        PowerOfTwoBitTrick(v / 2);
        assert BitAnd(v, v - 1) == 2 * BitAnd(v / 2, v / 2 - 1);
        assert Pow2(Log2(v)) == 2 * Pow2(Log2(v / 2));
      }
    }
  }

  // The k-bit reversal

  lemma {:induction false} RevBound(n: int, k: nat)
    ensures Rev(n, k) < Pow2(k)
    decreases k
  {
    if k > 0 {
      RevBound(n / 2, k - 1);
    }
  }

  /** Reversing a + b bits: the low a bits land on top, the next b bits below them. */
  lemma {:induction false} RevSplit(n: int, a: nat, b: nat)
    ensures Rev(n, a + b) == Rev(n, a) * Pow2(b) + Rev(n / Pow2(a), b)
    decreases a
  {
    if a > 0 {
      var h := n / 2;
      var bit := if n % 2 == 1 then 1 else 0;
      var pa, pb, pab := Pow2(a - 1), Pow2(b), Pow2(a - 1 + b);
      assert Rev(n, a + b) == bit * pab + Rev(h, a - 1 + b);
      RevSplit(h, a - 1, b);
      assert h / pa == n / Pow2(a) by {
        DivDiv(n, 2, pa);
      }
      assert Rev(n, a) == bit * pa + Rev(h, a - 1);
      Pow2Add(a - 1, b);
      Distribute(bit * pa, Rev(h, a - 1), pb);
      assert bit * pa * pb == bit * pab;
    }
  }

  lemma Distribute(x: int, y: int, z: int)
    ensures (x + y) * z == x * z + y * z
  {
  }

  /** Bits at position k and above do not affect a k-bit reversal. */
  lemma {:induction false} RevIgnoresHighBits(m: int, low: int, k: nat)
    ensures Rev(m * Pow2(k) + low, k) == Rev(low, k)
    decreases k
  {
    if k > 0 {
      var y := m * Pow2(k - 1);
      assert m * Pow2(k) == 2 * y;
      var x := 2 * y + low;
      assert m * Pow2(k) + low == x;
      assert x % 2 == low % 2 && x / 2 == y + low / 2;
      RevIgnoresHighBits(m, low / 2, k - 1);
    }
  }

  /** The k-bit reversal of a k-bit number is an involution. */
  lemma {:induction false} RevInvolution(i: nat, k: nat)
    requires i < Pow2(k)
    ensures Rev(Rev(i, k), k) == i
  {
    if k > 0 {
      RevInvolution(i / 2, k - 1);
      RevInvolutionStep(i, k);
    }
  }

  /** One step of the involution: the lowest bit of i goes to the top and comes back. */
  lemma RevInvolutionStep(i: nat, k: nat)
    requires 0 < k && i < Pow2(k)
    requires Rev(Rev(i / 2, k - 1), k - 1) == i / 2
    ensures Rev(Rev(i, k), k) == i
  {
    var j := Rev(i, k);
    RevBound(i / 2, k - 1);
    RevSplitTop(j, k);
    if i % 2 == 0 {
      RevTopBitClear(i, k);
      assert Rev(j / Pow2(k - 1), 1) == 0;
    } else {
      RevTopBitSet(i, k);
      assert Rev(j / Pow2(k - 1), 1) == 1;
    }
  }

  /** Splitting off the top bit of a k-bit reversal. */
  lemma RevSplitTop(n: int, k: nat)
    requires 0 < k
    ensures Rev(n, k) == 2 * Rev(n, k - 1) + Rev(n / Pow2(k - 1), 1)
  {
    var top := Rev(n, k - 1);
    assert Pow2(1) == 2;
    RevSplit(n, k - 1, 1);
    assert top * Pow2(1) == 2 * top;
  }

  /** An even i reverses to a number below 2^(k-1) whose k-1 low bits reverse back to i / 2. */
  lemma RevTopBitClear(i: nat, k: nat)
    requires 0 < k && i % 2 == 0
    requires Rev(i / 2, k - 1) < Pow2(k - 1)
    ensures Rev(i, k) / Pow2(k - 1) == 0
    ensures Rev(Rev(i, k), k - 1) == Rev(Rev(i / 2, k - 1), k - 1)
  {
    DivModUnique(Rev(i, k), Pow2(k - 1), 0, Rev(i / 2, k - 1));
  }

  /** An odd i reverses to 2^(k-1) plus the reversal of i / 2, which the k-1 low bits ignore. */
  lemma RevTopBitSet(i: nat, k: nat)
    requires 0 < k && i % 2 == 1
    requires Rev(i / 2, k - 1) < Pow2(k - 1)
    ensures Rev(i, k) / Pow2(k - 1) == 1
    ensures Rev(Rev(i, k), k - 1) == Rev(Rev(i / 2, k - 1), k - 1)
  {
    var rh := Rev(i / 2, k - 1);
    assert Rev(i, k) == 1 * Pow2(k - 1) + rh;
    DivModUnique(Rev(i, k), Pow2(k - 1), 1, rh);
    RevIgnoresHighBits(1, rh, k - 1);
  }

  /** The Go expression computes the k-bit reversal, and it stays below the order. */
  lemma ReverseBitsIsRev(n: u64, order: u64)
    requires IsPowerOfTwo(order)
    ensures BitLen(order) <= 65
    ensures Reverse64(n) / Pow2(65 - BitLen(order)) == Rev(n, Log2(order)) < order
  {
    var k := Log2(order);
    Pow2Logs(k);
    Pow2Of64();
    if k > 64 {
      Pow2Monotone(64, k);
    }
    ShiftedReverseIsRev(n, 64, k);
    RevBound(n, k);
  }

  /** Shifting a w-bit reversal right by w - k leaves the k-bit reversal. */
  lemma ShiftedReverseIsRev(n: int, w: nat, k: nat)
    requires k <= w
    ensures Rev(n, w) / Pow2(w - k) == Rev(n, k)
  {
    RevSplitBounded(n, k, w - k);
    DivModUnique(Rev(n, w), Pow2(w - k), Rev(n, k), Rev(n / Pow2(k), w - k));
  }

  lemma RevSplitBounded(n: int, a: nat, b: nat)
    ensures Rev(n, a + b) == Rev(n, a) * Pow2(b) + Rev(n / Pow2(a), b)
    ensures Rev(n / Pow2(a), b) < Pow2(b)
  {
    RevSplit(n, a, b);
    RevBound(n / Pow2(a), b);
  }

  // Counting elements by their positions

  ghost function Positions<T>(s: seq<T>, x: T): set<nat>
  {
    set i: nat | i < |s| && s[i] == x
  }

  lemma {:induction false} MultiplicityIsPositions<T>(s: seq<T>, x: T)
    ensures multiset(s)[x] == |Positions(s, x)|
  {
    if s == [] {
      assert Positions(s, x) == {};
    } else {
      var init := s[..|s| - 1];
      MultiplicityIsPositions(init, x);
      assert s == init + [s[|s| - 1]];
      if s[|s| - 1] == x {
        assert Positions(s, x) == Positions(init, x) + {|s| - 1};
      } else {
        assert Positions(s, x) == Positions(init, x);
      }
    }
  }

  ghost function RevImage(a: set<nat>, k: nat): set<nat>
  {
    set i | i in a :: Rev(i, k)
  }

  /** Reversal is injective on k-bit numbers, so it preserves the size of a set of them. */
  lemma {:induction false} RevImageSize(a: set<nat>, k: nat)
    requires forall i :: i in a ==> i < Pow2(k)
    ensures |RevImage(a, k)| == |a|
    decreases |a|
  {
    if a != {} {
      var x :| x in a;
      var rest := a - {x};
      RevImageSize(rest, k);
      var image := RevImage(rest, k);
      forall i | i in rest
        ensures Rev(i, k) != Rev(x, k)
      {
        RevInvolution(i, k);
        RevInvolution(x, k);
      }
      assert Rev(x, k) !in image;
      assert RevImage(a, k) == image + {Rev(x, k)};
      assert |a| == |rest| + 1;
    }
  }
}

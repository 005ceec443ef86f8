/**
  Integer models of the bit operations the codec relies on: powers of two
  (`2**i`, `std::pow(2, i)`), bitwise AND and OR on naturals, the power-of-two
  test `i & (i - 1) == 0` and the integer floor of log2 (`int(math.log2(x))`).
  Everything is exact: the floating-point helpers of the source are replaced by
  their exact integer meaning.
 */
module BitOps {

  /** 2^k. */
  function Pow2(k: nat): (p: nat)
    ensures p >= 1
  {
    if k == 0 then 1 else 2 * Pow2(k - 1)
  }

  lemma {:induction false} Pow2Monotone(i: nat, j: nat)
    requires i < j
    ensures Pow2(i) < Pow2(j)
  {
    if i + 1 < j {
      Pow2Monotone(i, j - 1);
    }
  }

  /** Bitwise AND of two naturals, taken one bit at a time from the least significant end. */
  function And(a: nat, b: nat): (c: nat)
  {
    if a == 0 || b == 0 then 0
    else 2 * And(a / 2, b / 2) + (if a % 2 == 1 && b % 2 == 1 then 1 else 0)
  }

  /** Bitwise OR of two naturals, taken one bit at a time from the least significant end. */
  function Or(a: nat, b: nat): (c: nat)
    ensures a <= c <= a + b
  {
    if a == 0 then b
    else if b == 0 then a
    else 2 * Or(a / 2, b / 2) + (if a % 2 == 1 || b % 2 == 1 then 1 else 0)
  }

  /** Shifting left by k bits: k doublings. */
  function ShiftLeft(a: nat, k: nat): (c: nat)
  {
    if k == 0 then a else 2 * ShiftLeft(a, k - 1)
  }

  /** Shifting left by k bits multiplies by 2^k. */
  lemma {:induction false} ShiftLeftIsProduct(a: nat, k: nat)
    ensures ShiftLeft(a, k) == a * Pow2(k)
  {
    if k > 0 {
      ShiftLeftIsProduct(a, k - 1);
      assert a * Pow2(k) == 2 * (a * Pow2(k - 1));
    }
  }

  /** Masking a value with itself leaves it unchanged. */
  lemma {:induction false} AndSelf(a: nat)
    ensures And(a, a) == a
  {
    if a != 0 {
      AndSelf(a / 2);
    }
  }

  /** Masking with 2^(k+1) is masking the halved value with 2^k, one position up. */
  lemma AndPow2Succ(a: nat, k: nat)
    ensures And(a, Pow2(k + 1)) == 2 * And(a / 2, Pow2(k))
  {
  }

  /** Masking with 2^0 == 1 keeps the lowest bit. */
  lemma AndOne(a: nat)
    ensures And(a, 1) == a % 2
  {
  }

  /** Two powers of two share a bit exactly when they are the same power. */
  lemma {:induction false} AndPow2Pow2(i: nat, k: nat)
    ensures And(Pow2(i), Pow2(k)) == (if i == k then Pow2(i) else 0)
  {
    if i > 0 && k > 0 {
      AndPow2Pow2(i - 1, k - 1);
      assert Pow2(i) / 2 == Pow2(i - 1);
      assert Pow2(k) / 2 == Pow2(k - 1);
    }
  }

  /** OR with a value below 2^k after shifting left by k bits is plain addition. */
  lemma {:induction false} OrShifted(a: nat, b: nat, k: nat)
    requires b < Pow2(k)
    ensures Or(ShiftLeft(a, k), b) == ShiftLeft(a, k) + b
  {
    if a == 0 {
      ShiftLeftIsProduct(a, k);
    } else if k > 0 && b != 0 {
      var x := ShiftLeft(a, k - 1);
      assert b / 2 < Pow2(k - 1);
      OrShifted(a, b / 2, k - 1);
      assert x != 0 by {
        ShiftLeftIsProduct(a, k - 1);
      }
      assert Or(2 * x, b) == 2 * Or(x, b / 2) + b % 2;
    }
  }

  /** The source's power-of-two test `p & (p - 1) == 0`, for positions p >= 1. */
  predicate IsPow2(p: nat)
  {
    p >= 1 && And(p, p - 1) == 0
  }

  /** floor(log2(x)) for x >= 1. */
  function Log2Floor(x: nat): (k: nat)
    requires x >= 1
    ensures Pow2(k) <= x < Pow2(k + 1)
  {
    if x == 1 then 0 else 1 + Log2Floor(x / 2)
  }

  /** The bracket Pow2(k) <= x < Pow2(k + 1) determines k. */
  lemma Log2FloorUnique(x: nat, k: nat)
    requires Pow2(k) <= x < Pow2(k + 1)
    ensures Log2Floor(x) == k
  {
    var l := Log2Floor(x);
    if l + 1 < k {
      Pow2Monotone(l + 1, k);
    } else if k + 1 < l {
      Pow2Monotone(k + 1, l);
    }
  }

  /** The bitwise test `p & (p - 1) == 0` holds exactly of the powers of two. */
  lemma {:induction false} IsPow2Iff(p: nat)
    requires p >= 1
    ensures IsPow2(p) <==> p == Pow2(Log2Floor(p))
  {
    if p > 1 {
      var h := p / 2;
      if p % 2 == 0 {
        assert (p - 1) / 2 == h - 1;
        assert And(p, p - 1) == 2 * And(h, h - 1);
        IsPow2Iff(h);
        assert Log2Floor(p) == 1 + Log2Floor(h);
        assert Pow2(Log2Floor(p)) == 2 * Pow2(Log2Floor(h));
      } else {
        assert (p - 1) / 2 == h;
        assert And(p, p - 1) == 2 * And(h, h);
        AndSelf(h);
        assert Pow2(Log2Floor(p)) == 2 * Pow2(Log2Floor(h));
      }
    }
  }

  /** Every 2^k passes the source's power-of-two test. */
  lemma Pow2IsPow2(k: nat)
    ensures IsPow2(Pow2(k)) && Log2Floor(Pow2(k)) == k
  {
    Log2FloorUnique(Pow2(k), k);
    IsPow2Iff(Pow2(k));
  }

  /** A power of two inside the bracket [2^k, 2^(k+1)) is 2^k itself. */
  lemma PowerInBracket(p: nat, k: nat)
    requires IsPow2(p) && Pow2(k) <= p < Pow2(k + 1)
    ensures p == Pow2(k)
  {
    IsPow2Iff(p);
    Log2FloorUnique(p, k);
  }

  /** Strictly between 2^k and 2^(k+1) there is no power of two. */
  lemma NoPowerBetween(x: nat, k: nat)
    requires Pow2(k) < x < Pow2(k + 1)
    ensures !IsPow2(x)
  {
    if IsPow2(x) {
      PowerInBracket(x, k);
    }
  }

  /** A power of two below 2^r is some 2^k with k < r. */
  lemma PowerBelow(p: nat, r: nat)
    requires IsPow2(p) && p < Pow2(r)
    ensures Log2Floor(p) < r && p == Pow2(Log2Floor(p))
  {
    IsPow2Iff(p);
    if Log2Floor(p) >= r {
      if Log2Floor(p) > r {
        Pow2Monotone(r, Log2Floor(p));
      }
    }
  }

  /**
    For 2^k < n < 2^(k+1): floor(log2(n + 1)) is k + 1 when n + 1 is a power of
    two and k otherwise.
   */
  lemma BracketLog(n: nat, k: nat)
    requires Pow2(k) < n < Pow2(k + 1)
    ensures IsPow2(n + 1) ==> Log2Floor(n + 1) == k + 1
    ensures !IsPow2(n + 1) ==> Log2Floor(n + 1) == k
  {
    if n + 1 == Pow2(k + 1) {
      Pow2IsPow2(k + 1);
    } else {
      Log2FloorUnique(n + 1, k);
      NoPowerBetween(n + 1, k);
    }
  }
}

/**
  The conventions the encoder and the decoder share: 1-based codeword positions,
  parity positions at the powers of two, the check group of parity position 2^k
  (the positions j with `j & 2^k != 0`), the parity of a group, the syndrome, the
  payload extraction and the Hamming bound that fixes the number of parity bits.
  Codewords are strings of characters; a character contributes 1 to a parity
  exactly when it is '1' (the encoder's placeholder 'P' contributes 0).
 */
module Hamming {
  import opened BitOps

  /** Parity contribution of one character: `(c == '1') ? 1 : 0`, and `int(c)` on '0'/'1'. */
  function Val(ch: char): nat
  {
    if ch == '1' then 1 else 0
  }

  /** Toggled bit character: `'0' if c == '1' else '1'`. */
  function Toggle(ch: char): char
  {
    if ch == '1' then '0' else '1'
  }

  /** Position j is in the check group of parity position 2^k: `j & 2^k != 0`. */
  predicate InGroup(j: nat, k: nat)
  {
    And(j, Pow2(k)) != 0
  }

  /** The parity position 2^i is in group k exactly when i == k. */
  lemma PowerInGroup(i: nat, k: nat)
    ensures InGroup(Pow2(i), k) <==> i == k
  {
    AndPow2Pow2(i, k);
  }

  /** XOR of the values of c at the group-k positions among 1..hi. */
  function GroupParity(c: string, k: nat, hi: nat): (b: nat)
    requires hi <= |c|
    ensures b < 2
  {
    if hi == 0 then 0
    else if InGroup(hi, k) then (GroupParity(c, k, hi - 1) + Val(c[hi - 1])) % 2
    else GroupParity(c, k, hi - 1)
  }

  /** Overwriting one character changes the parity of group k by the XOR of the old and new values, if it is in the group. */
  lemma {:induction false} GroupParityUpdate(c: string, k: nat, hi: nat, q: nat, ch: char)
    requires hi <= |c| && q < |c|
    ensures GroupParity(c[q := ch], k, hi) ==
            if q < hi && InGroup(q + 1, k) then (GroupParity(c, k, hi) + Val(c[q]) + Val(ch)) % 2
            else GroupParity(c, k, hi)
  {
    if hi > 0 {
      GroupParityUpdate(c, k, hi - 1, q, ch);
    }
  }

  /** Group parity only depends on the values at the group's positions. */
  lemma {:induction false} GroupParityAgree(c: string, d: string, k: nat, hi: nat)
    requires hi <= |c| && hi <= |d|
    requires forall j :: 1 <= j <= hi && InGroup(j, k) ==> Val(c[j - 1]) == Val(d[j - 1])
    ensures GroupParity(c, k, hi) == GroupParity(d, k, hi)
  {
    if hi > 0 {
      GroupParityAgree(c, d, k, hi - 1);
    }
  }

  /**
    The syndrome over the first r groups: the sum of `parity * 2^i` for i < r, as
    the decoder accumulates it in `error_position`.
   */
  function Syndrome(c: string, r: nat): (s: nat)
    ensures s < Pow2(r)
  {
    if r == 0 then 0
    else Syndrome(c, r - 1) + GroupParity(c, r - 1, |c|) * Pow2(r - 1)
  }

  /** Every one of the first r check groups has even parity. */
  predicate GroupsEven(c: string, r: nat)
  {
    forall k :: 0 <= k < r ==> GroupParity(c, k, |c|) == 0
  }

  /** The syndrome is zero exactly when every checked group has even parity. */
  lemma {:induction false} SyndromeZeroIff(c: string, r: nat)
    ensures Syndrome(c, r) == 0 <==> GroupsEven(c, r)
  {
    if r > 0 {
      var k := r - 1;
      SyndromeZeroIff(c, k);
      var g := GroupParity(c, k, |c|);
      assert Syndrome(c, r) == Syndrome(c, k) + g * Pow2(k);
      if g == 0 {
        assert g * Pow2(k) == 0;
        assert GroupsEven(c, r) <==> GroupsEven(c, k);
      } else {
        assert g * Pow2(k) == Pow2(k);
        assert !GroupsEven(c, r);
      }
    }
  }

  /** Toggle the character at 1-based position p. */
  function Flip(c: string, p: nat): (d: string)
    requires 1 <= p <= |c|
    ensures |d| == |c| && d[p - 1] == Toggle(c[p - 1])
    ensures forall i :: 0 <= i < |c| && i != p - 1 ==> d[i] == c[i]
  {
    c[p - 1 := Toggle(c[p - 1])]
  }

  /** Flipping a bit character twice restores it. */
  lemma FlipTwice(c: string, p: nat)
    requires 1 <= p <= |c| && (c[p - 1] == '0' || c[p - 1] == '1')
    ensures Flip(Flip(c, p), p) == c
  {
  }

  /** A flip at position p changes the parity of exactly the groups p belongs to. */
  lemma FlipGroupParity(c: string, p: nat, k: nat)
    requires 1 <= p <= |c|
    ensures GroupParity(Flip(c, p), k, |c|) ==
            if InGroup(p, k) then 1 - GroupParity(c, k, |c|) else GroupParity(c, k, |c|)
  {
    GroupParityUpdate(c, k, |c|, p - 1, Toggle(c[p - 1]));
  }

  /** The sum of 2^k over the groups k < r that position p belongs to. */
  function GroupBits(p: nat, r: nat): (s: nat)
    ensures s < Pow2(r)
  {
    if r == 0 then 0
    else GroupBits(p, r - 1) + (if InGroup(p, r - 1) then Pow2(r - 1) else 0)
  }

  lemma {:induction false} GroupBitsShift(p: nat, r: nat)
    ensures GroupBits(p, r + 1) == p % 2 + 2 * GroupBits(p / 2, r)
  {
    if r == 0 {
      AndOne(p);
      assert InGroup(p, 0) <==> p % 2 == 1;
    } else {
      var k := r - 1;
      GroupBitsShift(p, k);
      AndPow2Succ(p, k);
      assert InGroup(p, r) <==> InGroup(p / 2, k);
      assert GroupBits(p, r + 1) == GroupBits(p, r) + (if InGroup(p, r) then Pow2(r) else 0);
      assert GroupBits(p / 2, r) == GroupBits(p / 2, k) + (if InGroup(p / 2, k) then Pow2(k) else 0);
    }
  }

  /** A position below 2^r is the sum of the 2^k of its groups k < r: its binary expansion. */
  lemma {:induction false} GroupBitsOfSmall(p: nat, r: nat)
    requires p < Pow2(r)
    ensures GroupBits(p, r) == p
  {
    if r > 0 {
      GroupBitsShift(p, r - 1);
      GroupBitsOfSmall(p / 2, r - 1);
    }
  }

  /** A position in [2^r, 2^(r+1)) has the low groups of p - 2^r. */
  lemma GroupBitsOfBracket(p: nat, r: nat)
    requires Pow2(r) <= p < Pow2(r + 1)
    ensures GroupBits(p, r) == p - Pow2(r)
  {
    GroupBitsOfSmall(p, r + 1);
  }

  /**
    With every one of the first r groups even, a single flip at position p makes
    the syndrome the sum of the 2^k of the groups p belongs to.
   */
  lemma {:induction false} FlipSyndrome(c: string, p: nat, r: nat)
    requires 1 <= p <= |c| && GroupsEven(c, r)
    ensures Syndrome(Flip(c, p), r) == GroupBits(p, r)
  {
    if r > 0 {
      var d, k := Flip(c, p), r - 1;
      assert GroupParity(c, k, |c|) == 0;
      FlipSyndrome(c, p, k);
      FlipGroupParity(c, p, k);
      var g := GroupParity(d, k, |d|);
      assert g == (if InGroup(p, k) then 1 else 0);
      assert g * Pow2(k) == (if InGroup(p, k) then Pow2(k) else 0);
      assert Syndrome(d, r) == Syndrome(d, k) + g * Pow2(k);
    }
  }

  /** Number of data (non-power-of-two) positions among 1..k. */
  function DataCount(k: nat): (d: nat)
    ensures d <= k
  {
    if k == 0 then 0 else DataCount(k - 1) + (if IsPow2(k) then 0 else 1)
  }

  lemma {:induction false} DataCountMonotone(i: nat, k: nat)
    requires i <= k
    ensures DataCount(i) <= DataCount(k)
  {
    if i < k {
      DataCountMonotone(i, k - 1);
    }
  }

  /** Just below a power of two 2^l, the floor of log2 drops to l - 1. */
  lemma Log2FloorBelowPower(n: nat)
    requires n > 1 && IsPow2(n)
    ensures Log2Floor(n) >= 1 && Log2Floor(n - 1) == Log2Floor(n) - 1
  {
    var l := Log2Floor(n);
    IsPow2Iff(n);
    assert n == Pow2(l);
    assert l != 0;
    var h := Pow2(l - 1);
    assert n == 2 * h;
    Log2FloorUnique(n - 1, l - 1);
  }

  /** Just below a non-power of two, the floor of log2 stays the same. */
  lemma Log2FloorBelowNonPower(n: nat)
    requires n > 1 && !IsPow2(n)
    ensures Log2Floor(n - 1) == Log2Floor(n)
  {
    var l := Log2Floor(n);
    IsPow2Iff(n);
    Log2FloorUnique(n - 1, l);
  }

  /** Among 1..n there are exactly floor(log2(n)) + 1 powers of two. */
  lemma {:induction false} DataCountLog(n: nat)
    requires n >= 1
    ensures DataCount(n) == n - Log2Floor(n) - 1
  {
    if n > 1 {
      DataCountLog(n - 1);
      if IsPow2(n) {
        Log2FloorBelowPower(n);
      } else {
        Log2FloorBelowNonPower(n);
      }
    }
  }

  /** The characters at the data positions among 1..hi (those with `i & (i - 1) != 0`), in ascending order. */
  function DataBitsTo(c: string, hi: nat): (d: string)
    requires hi <= |c|
    ensures |d| == DataCount(hi)
  {
    if hi == 0 then []
    else DataBitsTo(c, hi - 1) + (if IsPow2(hi) then [] else [c[hi - 1]])
  }

  /** The payload extraction over the whole codeword. */
  function DataBits(c: string): (d: string)
    ensures |d| == DataCount(|c|)
  {
    DataBitsTo(c, |c|)
  }

  /** The data position p lands at index DataCount(p - 1) of the payload. */
  lemma {:induction false} DataBitsAt(c: string, p: nat, hi: nat)
    requires 1 <= p <= hi <= |c| && !IsPow2(p)
    ensures DataCount(p - 1) < DataCount(hi) && DataBitsTo(c, hi)[DataCount(p - 1)] == c[p - 1]
  {
    DataCountMonotone(p, hi);
    if p < hi {
      DataBitsAt(c, p, hi - 1);
    }
  }

  /** The data positions of c hold the characters of data, in order. */
  predicate DataLaidOut(c: string, data: string)
  {
    forall i {:trigger c[i]} :: 0 <= i < |c| && !IsPow2(i + 1) ==> DataCount(i) < |data| && c[i] == data[DataCount(i)]
  }

  /** One more data position in layout order extends the extracted prefix of data by one character. */
  lemma DataBitsExtend(c: string, data: string, hi: nat)
    requires 1 <= hi <= |c| && !IsPow2(hi)
    requires DataCount(hi - 1) < |data| && c[hi - 1] == data[DataCount(hi - 1)]
    requires DataBitsTo(c, hi - 1) == data[..DataCount(hi - 1)]
    ensures DataCount(hi) <= |data| && DataBitsTo(c, hi) == data[..DataCount(hi)]
  {
    var d := DataCount(hi - 1);
    assert data[..d] + [data[d]] == data[..d + 1];
  }

  /**
    A codeword whose data positions hold the characters of data in order, and
    which has exactly |data| data positions, yields data as its payload.
   */
  lemma {:induction false} DataBitsOfLayout(c: string, data: string, hi: nat)
    requires hi <= |c| && DataCount(|c|) == |data| && DataLaidOut(c, data)
    ensures DataCount(hi) <= |data| && DataBitsTo(c, hi) == data[..DataCount(hi)]
  {
    DataCountMonotone(hi, |c|);
    if hi > 0 {
      DataBitsOfLayout(c, data, hi - 1);
      var d := DataCount(hi - 1);
      if IsPow2(hi) {
        assert DataCount(hi) == d && DataBitsTo(c, hi) == DataBitsTo(c, hi - 1);
      } else {
        var ch := c[hi - 1];
        assert d < |data| && ch == data[d];
        DataBitsExtend(c, data, hi);
      }
    }
  }

  /** Hamming bound: r parity bits suffice for m data bits when m + r + 1 <= 2^r. */
  predicate Enough(m: nat, r: nat)
  {
    m + r + 1 <= Pow2(r)
  }

  /** The least r satisfying the bound: what the planner's search evidently looks for. */
  predicate LeastEnough(m: nat, r: nat)
  {
    Enough(m, r) && forall s :: 0 <= s < r ==> !Enough(m, s)
  }

  /**
    What both parity-bit planners return: for m >= 4 the least r satisfying the
    bound; for m <= 3 the search range 0..m-1 holds no solution and the planners
    fall back to 0.
   */
  predicate Planned(m: nat, r: nat)
  {
    if m <= 3 then r == 0 else LeastEnough(m, r)
  }

  /** For m >= 4 the bound already holds at r = m - 1, inside the search range. */
  lemma {:induction false} EnoughBelowM(m: nat)
    requires m >= 4
    ensures Enough(m, m - 1)
  {
    if m > 4 {
      EnoughBelowM(m - 1);
    }
  }

  /** For every m the bound holds at r = m + 1, so an unbounded search always stops. */
  lemma {:induction false} EnoughAbove(m: nat)
    ensures Enough(m, m + 1)
  {
    if m > 0 {
      EnoughAbove(m - 1);
      assert Pow2(m + 1) == 2 * Pow2(m);
    }
  }

  /** For m <= 3 no r in the search range 0..m-1 satisfies the bound. */
  lemma SmallPayloadNoParity(m: nat)
    requires m <= 3
    ensures forall r :: 0 <= r < m ==> !Enough(m, r)
  {
    assert Pow2(2) == 4;
  }

  /** The planned count is unique. */
  lemma PlannedUnique(m: nat, r1: nat, r2: nat)
    requires Planned(m, r1) && Planned(m, r2)
    ensures r1 == r2
  {
  }

  /**
    Layout of a codeword of n = m + r positions with r the least count satisfying
    the bound and m >= 1: 2^(r-1) < n < 2^r, so the powers of two in 1..n are
    exactly 2^0 .. 2^(r-1) and exactly m positions carry data.
   */
  lemma LeastLayout(m: nat, r: nat, n: nat)
    requires m >= 1 && LeastEnough(m, r) && n == m + r
    ensures r >= 1
    ensures Pow2(r - 1) < n < Pow2(r)
    ensures Log2Floor(n) == r - 1
    ensures DataCount(n) == m
  {
    assert !Enough(m, 0);
    assert !Enough(m, r - 1);
    Log2FloorUnique(n, r - 1);
    DataCountLog(n);
  }

  /** For m >= 4 the planned layout has at least three parity bits, fewer than m. */
  lemma PlannedLayout(m: nat, r: nat, n: nat)
    requires m >= 4 && Planned(m, r) && n == m + r
    ensures 3 <= r < m
    ensures Pow2(r - 1) < n < Pow2(r)
    ensures Log2Floor(n) == r - 1
    ensures DataCount(n) == m
  {
    EnoughBelowM(m);
    assert !Enough(m, 2) by { assert Pow2(2) == 4; }
    LeastLayout(m, r, n);
  }

  /** Either planner leaves room for the payload: at most m data positions in 1..m + r. */
  lemma PlannedFits(m: nat, r: nat)
    requires Planned(m, r) || LeastEnough(m, r)
    ensures DataCount(m + r) <= m
  {
    if m >= 1 && LeastEnough(m, r) {
      LeastLayout(m, r, m + r);
    } else if m >= 4 {
      PlannedLayout(m, r, m + r);
    } else if m == 0 {
      assert Enough(0, 0);
    }
  }

  /**
    The parity-bit planner, written identically on both sides (`calculateParityBits`
    and `calculate_parity_bits`): the least r < m with m + r + 1 <= 2^r, or 0 when
    the search range holds none.
   */
  method CalculateParityBits(m: nat) returns (r: nat)
    ensures Planned(m, r)
    ensures m >= 4 ==> r < m
  {
    if m >= 4 {
      EnoughBelowM(m);
    } else {
      SmallPayloadNoParity(m);
    }
    for candidate := 0 to m
      invariant forall s :: 0 <= s < candidate ==> !Enough(m, s)
      invariant m >= 4 ==> candidate < m
    {
      if m + candidate + 1 <= Pow2(candidate) {
        return candidate;
      }
    }
    return 0;
  }

  /**
    The planner with the search range the bound evidently calls for: r counts up
    from 0 until m + r + 1 <= 2^r, with no upper limit, so it returns the least
    such r for every m (2 for m = 1, 3 for m = 2 and m = 3).
   */
  method LeastParityBits(m: nat) returns (r: nat)
    ensures LeastEnough(m, r)
  {
    EnoughAbove(m);
    r := 0;
    while m + r + 1 > Pow2(r)
      invariant r <= m + 1
      invariant forall s :: 0 <= s < r ==> !Enough(m, s)
      decreases m + 1 - r
    {
      r := r + 1;
    }
  }
}

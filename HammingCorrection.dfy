/**
  The sender side (hammingCorrection.cpp): the Hamming encoder, which lays the data bits out at the positions that are not powers of
  two, marks the power-of-two positions with the placeholder 'P', and then writes
  each parity bit 2^i so that its check group has even parity.
 */
module HammingCorrection {
  import opened BitOps
  import opened Hamming

  /** Parity positions below 2^k hold a bit; the other power-of-two positions still hold 'P'. */
  predicate ParitySlots(c: string, k: nat)
  {
    forall i {:trigger c[i]} :: 0 <= i < |c| && IsPow2(i + 1) ==>
      if i + 1 < Pow2(k) then c[i] == '0' || c[i] == '1' else c[i] == 'P'
  }

  /**
    The state of the codeword while parity bits are being written: data laid out,
    parity positions 2^i with i < k filled, and check groups 0..k-1 even.
   */
  predicate Stage(c: string, data: string, k: nat)
  {
    DataLaidOut(c, data) && ParitySlots(c, k) && GroupsEven(c, k)
  }

  /**
    c is what the encoder produces for data: |c| = m + r with r planned for m,
    every parity position below 2^r holds the bit that makes its group even, and
    the data positions hold data in order.
   */
  predicate IsEncodingOf(c: string, data: string)
  {
    |data| <= |c| && Planned(|data|, |c| - |data|) && Stage(c, data, |c| - |data|)
  }

  /**
    c is the encoding of data with the least parity count satisfying the bound,
    for every payload length: what the corrected encoder produces.
   */
  predicate IsFullEncodingOf(c: string, data: string)
  {
    |data| <= |c| && LeastEnough(|data|, |c| - |data|) && Stage(c, data, |c| - |data|)
  }

  /** Under either planner, every parity position 2^k with k < r lies inside the codeword of length m + r. */
  lemma ParityPositionInside(m: nat, r: nat)
    requires Planned(m, r) || LeastEnough(m, r)
    ensures forall k :: 0 <= k < r ==> Pow2(k) <= m + r
  {
    if m >= 1 && LeastEnough(m, r) {
      LeastLayout(m, r, m + r);
      forall k | 0 <= k < r - 1 ensures Pow2(k) < Pow2(r - 1) {
        Pow2Monotone(k, r - 1);
      }
    } else if m == 0 {
      assert Enough(0, 0);
    }
  }

  /** The character that makes a group of parity `parity` even: `(parity == 0) ? '0' : '1'`. */
  function ParityChar(parity: nat): (ch: char)
  {
    if parity == 0 then '0' else '1'
  }

  /** Writing the parity of group k at position 2^k takes the codeword from stage k to stage k + 1. */
  lemma ParityWriteStep(c: string, data: string, k: nat)
    requires Stage(c, data, k) && Pow2(k) <= |c|
    ensures Stage(c[Pow2(k) - 1 := ParityChar(GroupParity(c, k, |c|))], data, k + 1)
  {
    var q := Pow2(k) - 1;
    var g := GroupParity(c, k, |c|);
    var ch := ParityChar(g);
    var c' := c[q := ch];
    Pow2IsPow2(k);
    assert c[q] == 'P';
    forall i | 0 <= i < |c'| && !IsPow2(i + 1) ensures DataCount(i) < |data| && c'[i] == data[DataCount(i)] {
      assert i != q && c'[i] == c[i];
    }
    forall i | 0 <= i < |c'| && IsPow2(i + 1)
      ensures if i + 1 < Pow2(k + 1) then c'[i] == '0' || c'[i] == '1' else c'[i] == 'P'
    {
      if i != q && Pow2(k) <= i + 1 < Pow2(k + 1) {
        PowerInBracket(i + 1, k);
      }
    }
    forall k' | 0 <= k' < k + 1 ensures GroupParity(c', k', |c'|) == 0 {
      GroupParityUpdate(c, k', |c|, q, ch);
      PowerInGroup(k, k');
      if k' == k {
        assert Val(ch) == g && Val(c[q]) == 0;
      } else {
        assert GroupParity(c, k', |c|) == 0;
      }
    }
    assert DataLaidOut(c', data);
    assert ParitySlots(c', k + 1);
    assert GroupsEven(c', k + 1);
  }

  /**
    The first k characters after placement: position i of 1..k holds 'P' when it
    is a power of two and the next unused data character otherwise.
   */
  function Layout(data: string, k: nat): (c: string)
    requires DataCount(k) <= |data|
    ensures |c| == k
  {
    if k == 0 then []
    else
      DataCountMonotone(k - 1, k);
      Layout(data, k - 1) + [if IsPow2(k) then 'P' else data[DataCount(k - 1)]]
  }

  /** The placement puts data in order into the data positions and 'P' into every parity position. */
  lemma {:induction false} LayoutPlacesData(data: string, k: nat)
    requires DataCount(k) <= |data|
    ensures DataLaidOut(Layout(data, k), data) && ParitySlots(Layout(data, k), 0)
  {
    if k > 0 {
      DataCountMonotone(k - 1, k);
      LayoutPlacesData(data, k - 1);
      var c, c' := Layout(data, k), Layout(data, k - 1);
      assert Pow2(0) == 1;
      forall i | 0 <= i < k ensures if IsPow2(i + 1) then c[i] == 'P' else DataCount(i) < |data| && c[i] == data[DataCount(i)] {
        if i < k - 1 {
          assert c[i] == c'[i];
        }
      }
    }
  }

  /**
    The placement loop of `hammingEncode`: position i of 1..n gets 'P' when
    `i & (i - 1) == 0` and the next data character otherwise.
   */
  method LayOut(data: string, n: nat) returns (encodedData: array<char>)
    requires DataCount(n) <= |data|
    ensures fresh(encodedData) && encodedData[..] == Layout(data, n)
  {
    encodedData := new char[n](_ => '0');
    var j := 0;
    for i := 1 to n + 1
      invariant j == DataCount(i - 1) && j <= |data|
      invariant encodedData[..i - 1] == Layout(data, i - 1)
    {
      DataCountMonotone(i, n);
      if And(i, i - 1) == 0 {
        encodedData[i - 1] := 'P';
      } else {
        encodedData[i - 1] := data[j];
        j := j + 1;
      }
      assert encodedData[..i] == encodedData[..i - 1] + [encodedData[i - 1]];
    }
    assert encodedData[..] == encodedData[..n];
  }

  /**
    The inner loop of `hammingEncode`: the XOR of the bits at the positions j
    of 1..n with `j & parityPos` set, where a 'P' counts as 0.
   */
  method GroupParityOf(encodedData: array<char>, k: nat) returns (parity: nat)
    ensures parity == GroupParity(encodedData[..], k, encodedData.Length)
  {
    var parityPos := Pow2(k);
    parity := 0;
    for j := 1 to encodedData.Length + 1
      invariant parity == GroupParity(encodedData[..], k, j - 1)
    {
      if And(j, parityPos) != 0 {
        parity := (parity + Val(encodedData[j - 1])) % 2;
      }
    }
  }

  /**
    The body of `hammingEncode` once r is chosen: lay out the data and the 'P'
    placeholders over n = m + r positions, then fill in parity bits 2^0 .. 2^(r-1).
   */
  method EncodeWith(data: string, r: nat) returns (encoded: string)
    requires Planned(|data|, r) || LeastEnough(|data|, r)
    ensures |encoded| == |data| + r && Stage(encoded, data, r)
  {
    var m := |data|;
    var n := m + r;
    PlannedFits(m, r);
    ParityPositionInside(m, r);
    var encodedData := LayOut(data, n);
    LayoutPlacesData(data, n);

    for k := 0 to r
      invariant Stage(encodedData[..], data, k)
    {
      var parityPos := Pow2(k);
      var parity := GroupParityOf(encodedData, k);
      ghost var before := encodedData[..];
      ParityWriteStep(before, data, k);
      encodedData[parityPos - 1] := if parity == 0 then '0' else '1';
      assert encodedData[..] == before[parityPos - 1 := ParityChar(parity)];
    }
    encoded := encodedData[..];
  }

  /** `hammingEncode`: the parity count from `calculateParityBits`, then the layout and the parity bits. */
  method HammingEncode(data: string) returns (encoded: string)
    ensures IsEncodingOf(encoded, data)
  {
    var r := CalculateParityBits(|data|);
    encoded := EncodeWith(data, r);
  }

  /** The corrected encoder: the least parity count for every payload length, then the same steps. */
  method HammingEncodeAllSizes(data: string) returns (encoded: string)
    ensures IsFullEncodingOf(encoded, data)
  {
    var r := LeastParityBits(|data|);
    encoded := EncodeWith(data, r);
  }

  /** For m >= 4 the as-written encoding is the least-count encoding. */
  lemma PlannedEncodingIsFull(c: string, data: string)
    requires IsEncodingOf(c, data) && |data| >= 4
    ensures IsFullEncodingOf(c, data)
  {
  }

  /** Every position of a least-count encoding is below 2^r, and the data positions read in order give back data. */
  lemma EncodingPayload(c: string, data: string)
    requires IsFullEncodingOf(c, data)
    ensures DataBits(c) == data
  {
    if |data| == 0 {
      assert Enough(0, 0) && |c| == 0;
    } else {
      LeastLayout(|data|, |c| - |data|, |c|);
      assert DataLaidOut(c, data);
      DataBitsOfLayout(c, data, |c|);
    }
  }

  /** A least-count encoding of binary data holds no 'P': every character is '0' or '1'. */
  lemma EncodingIsBinary(c: string, data: string)
    requires IsFullEncodingOf(c, data)
    requires forall i :: 0 <= i < |data| ==> data[i] == '0' || data[i] == '1'
    ensures forall i :: 0 <= i < |c| ==> c[i] == '0' || c[i] == '1'
  {
    var r := |c| - |data|;
    if |data| == 0 {
      assert Enough(0, 0) && |c| == 0;
    } else {
      LeastLayout(|data|, r, |c|);
      assert DataLaidOut(c, data) && ParitySlots(c, r);
      forall i | 0 <= i < |c| ensures c[i] == '0' || c[i] == '1' {
        assert i + 1 < Pow2(r);
        var ch := c[i];
        if !IsPow2(i + 1) {
          assert ch == data[DataCount(i)];
        }
      }
    }
  }

  /** For m <= 3 the planner gives no parity bits: the output has length m and its power-of-two positions keep 'P'. */
  lemma SmallPayloadKeepsPlaceholders(c: string, data: string)
    requires IsEncodingOf(c, data) && |data| <= 3
    ensures |c| == |data|
    ensures forall i :: 0 <= i < |c| && IsPow2(i + 1) ==> c[i] == 'P'
  {
    assert |c| - |data| == 0;
    assert ParitySlots(c, 0) && Pow2(0) == 1;
  }

  /**
    Two codewords whose data positions agree and whose check group k is even
    carry the same parity bit at position 2^k.
   */
  lemma {:induction false} ParityBitDetermined(c1: string, c2: string, k: nat)
    requires |c1| == |c2| && Pow2(k) <= |c1|
    requires forall i {:trigger c1[i]} :: 0 <= i < |c1| && !IsPow2(i + 1) ==> c1[i] == c2[i]
    requires GroupParity(c1, k, |c1|) == 0 && GroupParity(c2, k, |c2|) == 0
    requires c1[Pow2(k) - 1] in "01" && c2[Pow2(k) - 1] in "01"
    ensures c1[Pow2(k) - 1] == c2[Pow2(k) - 1]
  {
    var n, q := |c1|, Pow2(k) - 1;
    var d := c1[q := c2[q]];
    forall j | 1 <= j <= n && InGroup(j, k) ensures Val(d[j - 1]) == Val(c2[j - 1]) {
      if j - 1 != q {
        assert d[j - 1] == c1[j - 1];
        if IsPow2(j) {
          IsPow2Iff(j);
          PowerInGroup(Log2Floor(j), k);
        }
      }
    }
    GroupParityAgree(d, c2, k, n);
    GroupParityUpdate(c1, k, n, q, c2[q]);
    PowerInGroup(k, k);
    assert (Val(c1[q]) + Val(c2[q])) % 2 == 0;
  }

  /** Two codewords of one length that lay out the same data agree at every data position. */
  lemma DataPositionsAgree(c1: string, c2: string, data: string)
    requires |c1| == |c2| && DataLaidOut(c1, data) && DataLaidOut(c2, data)
    ensures forall i {:trigger c1[i]} :: 0 <= i < |c1| && !IsPow2(i + 1) ==> c1[i] == c2[i]
  {
    forall i | 0 <= i < |c1| && !IsPow2(i + 1) ensures c1[i] == c2[i] {
      var ch1, ch2 := c1[i], c2[i];
      assert ch1 == data[DataCount(i)] && ch2 == data[DataCount(i)];
    }
  }

  /** Two codewords that agree at the data positions and are both at stage r agree at every parity position. */
  lemma ParityPositionsAgree(c1: string, c2: string, r: nat)
    requires |c1| == |c2|
    requires forall i {:trigger c1[i]} :: 0 <= i < |c1| && !IsPow2(i + 1) ==> c1[i] == c2[i]
    requires ParitySlots(c1, r) && ParitySlots(c2, r) && GroupsEven(c1, r) && GroupsEven(c2, r)
    ensures forall i {:trigger c1[i]} :: 0 <= i < |c1| && IsPow2(i + 1) ==> c1[i] == c2[i]
  {
    forall i | 0 <= i < |c1| && IsPow2(i + 1) ensures c1[i] == c2[i] {
      var ch1, ch2 := c1[i], c2[i];
      if i + 1 < Pow2(r) {
        assert ch1 in "01" && ch2 in "01";
        PowerBelow(i + 1, r);
        var k := Log2Floor(i + 1);
        assert k < r && Pow2(k) == i + 1;
        assert GroupParity(c1, k, |c1|) == 0 && GroupParity(c2, k, |c2|) == 0;
        ParityBitDetermined(c1, c2, k);
      } else {
        assert ch1 == 'P' && ch2 == 'P';
      }
    }
  }

  /** Two codewords of one length at stage r for the same data are equal. */
  lemma StageUnique(c1: string, c2: string, data: string, r: nat)
    requires |c1| == |c2| && Stage(c1, data, r) && Stage(c2, data, r)
    ensures c1 == c2
  {
    DataPositionsAgree(c1, c2, data);
    ParityPositionsAgree(c1, c2, r);
    assert forall i :: 0 <= i < |c1| ==> c1[i] == c2[i];
  }

  /** The encoding of a payload is unique: IsEncodingOf pins down every character. */
  lemma EncodingUnique(c1: string, c2: string, data: string)
    requires IsEncodingOf(c1, data) && IsEncodingOf(c2, data)
    ensures c1 == c2
  {
    var r := |c1| - |data|;
    PlannedUnique(|data|, r, |c2| - |data|);
    StageUnique(c1, c2, data, r);
  }

  /** For m >= 4 the corrected encoder produces exactly what `hammingEncode` produces. */
  lemma EncodersAgree(c1: string, c2: string, data: string)
    requires IsEncodingOf(c1, data) && IsFullEncodingOf(c2, data) && |data| >= 4
    ensures c1 == c2
  {
    var r := |c1| - |data|;
    assert LeastEnough(|data|, r) && LeastEnough(|data|, |c2| - |data|);
    assert |c2| - |data| == r;
    StageUnique(c1, c2, data, r);
  }
}

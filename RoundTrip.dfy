/**
  What the two sides promise each other: a codeword produced with the least
  parity count (by `hammingEncode` for payloads of four bits or more, by the
  corrected encoder for every non-empty payload) decodes to its payload, and the
  decoder's single-error correction, both as written (floor(log2(n + 1)) check
  groups) and with every parity position checked. Also what `hammingEncode`
  does to payloads of one to three bits.
 */
module RoundTrip {
  import opened BitOps
  import opened Hamming
  import opened HammingCorrection
  import opened Receptor

  /**
    For m >= 1 and n = m + r with r the least count: the decoder as written
    checks r groups when n + 1 is a power of two and r - 1 otherwise, and 1..n
    holds exactly r parity positions.
   */
  lemma LayoutCheckedGroups(m: nat, r: nat, n: nat)
    requires m >= 1 && LeastEnough(m, r) && n == m + r
    ensures ParityCount(n) == r
    ensures IsPow2(n + 1) ==> CheckedGroups(n) == r
    ensures !IsPow2(n + 1) ==> CheckedGroups(n) == r - 1 && Pow2(r - 1) < n
  {
    var k := r - 1;
    LeastLayout(m, r, n);
    assert k + 1 == r && Pow2(k) < n < Pow2(k + 1);
    BracketLog(n, k);
    assert CheckedGroups(n) == Log2Floor(n + 1);
    assert DataCount(n) == m && ParityCount(n) == n - m;
  }

  /** A least-count encoding of m >= 1 bits has all of its r check groups even, and the group counts above. */
  lemma EncodingGroups(c: string, data: string)
    requires IsFullEncodingOf(c, data) && |data| >= 1
    ensures var r := |c| - |data|;
      && GroupsEven(c, r)
      && ParityCount(|c|) == r
      && (IsPow2(|c| + 1) ==> CheckedGroups(|c|) == r)
      && (!IsPow2(|c| + 1) ==> CheckedGroups(|c|) == r - 1 && Pow2(r - 1) < |c|)
  {
    var m, r := |data|, |c| - |data|;
    assert Stage(c, data, r);
    assert GroupsEven(c, r);
    assert m + r == |c|;
    LayoutCheckedGroups(m, r, |c|);
  }

  /** Fewer checked groups than written stay even. */
  lemma GroupsEvenPrefix(c: string, r: nat, l: nat)
    requires GroupsEven(c, r) && l <= r
    ensures GroupsEven(c, l)
  {
  }

  /** Round trip: the decoder finds no error in an encoding and returns its payload. */
  lemma EncodeDecode(c: string, data: string)
    requires IsFullEncodingOf(c, data) && |data| >= 1
    ensures ErrorPosition(c) == 0 && Decode(c) == data
  {
    EncodingGroups(c, data);
    GroupsEvenPrefix(c, |c| - |data|, CheckedGroups(|c|));
    CleanCodewordDecodes(c);
    NoErrorIff(c);
    EncodingPayload(c, data);
  }

  /** A single flip of an encoding at a position below 2^CheckedGroups is corrected. */
  lemma EncodeFlipDecode(c: string, data: string, p: nat)
    requires IsFullEncodingOf(c, data) && |data| >= 1 && IsBinary(data)
    requires 1 <= p <= |c| && p < Pow2(CheckedGroups(|c|))
    ensures ErrorPosition(Flip(c, p)) == p && Decode(Flip(c, p)) == data
  {
    EncodingGroups(c, data);
    GroupsEvenPrefix(c, |c| - |data|, CheckedGroups(|c|));
    EncodingIsBinary(c, data);
    SingleErrorCorrected(c, p);
    EncodingPayload(c, data);
  }

  /** When n + 1 is a power of two (n = 7, 15, 31, ...) every single flip is corrected. */
  lemma PerfectEncodingCorrectsAll(c: string, data: string, p: nat)
    requires IsFullEncodingOf(c, data) && |data| >= 1 && IsBinary(data)
    requires IsPow2(|c| + 1) && 1 <= p <= |c|
    ensures Decode(Flip(c, p)) == data
  {
    EncodingGroups(c, data);
    IsPow2Iff(|c| + 1);
    EncodeFlipDecode(c, data, p);
  }

  /**
    For a planned length n = m + r with n + 1 not a power of two, the last
    position n is a data position at or above 2^CheckedGroups(n): outside the
    range the checked groups can name.
   */
  lemma LastPositionUnchecked(m: nat, r: nat, n: nat)
    requires m >= 1 && LeastEnough(m, r) && n == m + r && !IsPow2(n + 1)
    ensures Pow2(CheckedGroups(n)) <= n && !IsPow2(n)
  {
    LayoutCheckedGroups(m, r, n);
    LeastLayout(m, r, n);
    var g := CheckedGroups(n);
    assert g + 1 == r && Pow2(g) < n < Pow2(g + 1);
    NoPowerBetween(n, g);
  }

  /**
    The decoder as written: when n + 1 is not a power of two, a flip of the last
    position, which always carries data, is mis-corrected and the payload comes
    back wrong.
   */
  lemma LastPositionErrorMissed(c: string, data: string)
    requires IsFullEncodingOf(c, data) && |data| >= 1 && IsBinary(data)
    requires !IsPow2(|c| + 1)
    ensures Decode(Flip(c, |c|)) != data
  {
    var n, m, r := |c|, |data|, |c| - |data|;
    assert m + r == n;
    EncodingGroups(c, data);
    LastPositionUnchecked(m, r, n);
    var g := CheckedGroups(n);
    assert Pow2(g) <= n && !IsPow2(n);
    GroupsEvenPrefix(c, r, g);
    EncodingIsBinary(c, data);
    assert IsBinary(c) && GroupsEven(c, g);
    HighDataErrorCorrupts(c, n);
    EncodingPayload(c, data);
  }

  /** The corrected decoder returns the payload of an intact encoding. */
  lemma EncodeDecodeAllGroups(c: string, data: string)
    requires IsFullEncodingOf(c, data) && |data| >= 1
    ensures DecodeAllGroups(c) == Some(data)
  {
    EncodingGroups(c, data);
    AllGroupsCleanCodeword(c);
    EncodingPayload(c, data);
  }

  /** The corrected decoder undoes a single flip at any position of an encoding. */
  lemma EncodeFlipDecodeAllGroups(c: string, data: string, p: nat)
    requires IsFullEncodingOf(c, data) && |data| >= 1 && IsBinary(data)
    requires 1 <= p <= |c|
    ensures DecodeAllGroups(Flip(c, p)) == Some(data)
  {
    EncodingGroups(c, data);
    EncodingIsBinary(c, data);
    AllGroupsCorrectSingleError(c, p);
    EncodingPayload(c, data);
  }

  /**
    The encoder as written, for payloads of one to three bits: the planner falls
    back to no parity bits, position 1 keeps its 'P' placeholder, so the receiver
    rejects the codeword as non-binary, and the data positions hold fewer bits
    than were sent.
   */
  lemma SmallPayloadLost(c: string, data: string)
    requires IsEncodingOf(c, data) && 1 <= |data| <= 3
    ensures c[0] == 'P' && !IsBinary(c)
    ensures |DataBits(c)| < |data|
  {
    SmallPayloadKeepsPlaceholders(c, data);
    assert IsPow2(1) && IsPow2(2) && !IsPow2(3);
    assert c[0] == 'P';
    assert DataCount(|c|) < |data| by {
      assert DataCount(1) == 0 && DataCount(2) == 0 && DataCount(3) == 1;
    }
  }

  /** The corrected encoder's output for any non-empty binary payload is binary and decodes to it. */
  lemma AllSizesEncodeDecode(c: string, data: string)
    requires IsFullEncodingOf(c, data) && |data| >= 1 && IsBinary(data)
    ensures IsBinary(c) && Decode(c) == data && DecodeAllGroups(c) == Some(data)
  {
    EncodingIsBinary(c, data);
    EncodeDecode(c, data);
    EncodeDecodeAllGroups(c, data);
  }
}

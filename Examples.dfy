/**
  Worked instances: the textbook payload 1011 with its seven-position codeword,
  the five-bit payload 11111, whose nine-position codeword exposes the
  decoder's missing check group, and the three-bit payload 101, which the
  encoder as written turns into PP1.
 */
module Examples {
  import opened BitOps
  import opened Hamming
  import opened HammingCorrection
  import opened Receptor
  import opened RoundTrip

  /** The power-of-two test on positions 1..9. */
  lemma LowPositions()
    ensures IsPow2(1) && IsPow2(2) && !IsPow2(3) && IsPow2(4) && !IsPow2(5)
    ensures !IsPow2(6) && !IsPow2(7) && IsPow2(8) && !IsPow2(9)
  {
  }

  /** 0110011 is an encoding of 1011: three parity bits, at positions 1, 2 and 4. */
  lemma Encoded1011()
    ensures IsEncodingOf("0110011", "1011")
  {
    var c, d := "0110011", "1011";
    LowPositions();
    assert Pow2(3) == 8;
    assert Planned(4, 3);
    assert DataCount(2) == 0 && DataCount(4) == 1 && DataCount(5) == 2 && DataCount(6) == 3;
    forall i | 0 <= i < 7 && !IsPow2(i + 1) ensures DataCount(i) < |d| && c[i] == d[DataCount(i)] {
      assert i == 2 || i == 4 || i == 5 || i == 6;
    }
    EvenGroups0110011();
  }

  /** The three check groups of 0110011 have even parity. */
  lemma EvenGroups0110011()
    ensures GroupsEven("0110011", 3)
  {
    var c := "0110011";
    LowGroups0110011();
    assert GroupParity(c, 2, 7) == 0;
    forall k | 0 <= k < 3 ensures GroupParity(c, k, |c|) == 0 {
      assert k == 0 || k == 1 || k == 2;
    }
  }

  /** Groups 0 (positions 1, 3, 5, 7) and 1 (positions 2, 3, 6, 7) of 0110011 are even. */
  lemma LowGroups0110011()
    ensures GroupParity("0110011", 0, 7) == 0 && GroupParity("0110011", 1, 7) == 0
  {
  }

  /** The encoder turns 1011 into 0110011 and nothing else. */
  lemma Encoding1011(c: string)
    requires IsEncodingOf(c, "1011")
    ensures c == "0110011"
  {
    Encoded1011();
    EncodingUnique(c, "0110011", "1011");
  }

  /** 0110011 with position 5 flipped (0110111) is located at 5 and decoded back to 1011. */
  lemma Decoding1011WithError()
    ensures Flip("0110011", 5) == "0110111"
    ensures ErrorPosition("0110111") == 5 && Decode("0110111") == "1011"
  {
    assert Flip("0110011", 5) == "0110111";
    Encoded1011();
    assert Pow2(3) == 8 && Log2Floor(8) == 3;
    assert IsBinary("1011");
    PlannedEncodingIsFull("0110011", "1011");
    EncodeFlipDecode("0110011", "1011", 5);
  }

  /** 11111 is encoded as 011111111: four parity bits, at positions 1, 2, 4 and 8. */
  lemma Encoding11111()
    ensures IsEncodingOf("011111111", "11111")
  {
    var c, d := "011111111", "11111";
    LowPositions();
    assert Pow2(4) == 16 && Pow2(3) == 8;
    assert Planned(5, 4);
    assert DataCount(2) == 0 && DataCount(4) == 1 && DataCount(5) == 2 && DataCount(6) == 3 && DataCount(8) == 4;
    forall i | 0 <= i < 9 && !IsPow2(i + 1) ensures DataCount(i) < |d| && c[i] == d[DataCount(i)] {
      assert i == 2 || i == 4 || i == 5 || i == 6 || i == 8;
    }
    EvenGroups011111111();
  }

  /** The four check groups of 011111111 have even parity. */
  lemma EvenGroups011111111()
    ensures GroupsEven("011111111", 4)
  {
    var c := "011111111";
    LowGroups011111111();
    Group2Of011111111();
    Group3Of011111111();
    forall k | 0 <= k < 4 ensures GroupParity(c, k, |c|) == 0 {
      assert k == 0 || k == 1 || k == 2 || k == 3;
    }
  }

  /** Groups 0 (positions 1, 3, 5, 7, 9) and 1 (positions 2, 3, 6, 7) of 011111111 are even. */
  lemma LowGroups011111111()
    ensures GroupParity("011111111", 0, 9) == 0 && GroupParity("011111111", 1, 9) == 0
  {
  }

  /** Group 2 (positions 4..7) of 011111111 is even. */
  lemma Group2Of011111111()
    ensures GroupParity("011111111", 2, 9) == 0
  {
  }

  /** Group 3 (positions 8, 9) of 011111111 is even. */
  lemma Group3Of011111111()
    ensures GroupParity("011111111", 3, 9) == 0
  {
  }

  /** The decoder checks only groups 0..2 of 011111110 and names position 1. */
  lemma ErrorPosition011111110()
    ensures ErrorPosition("011111110") == 1
  {
    var c := "011111110";
    assert Log2Floor(10) == 3;
    assert GroupParity(c, 0, 9) == 1;
    assert GroupParity(c, 1, 9) == 0;
    assert GroupParity(c, 2, 9) == 0;
  }

  /** The data positions 3, 5, 6, 7, 9 of 111111110 read 11110. */
  lemma DataBits111111110()
    ensures DataBits("111111110") == "11110"
  {
    var e := "111111110";
    LowPositions();
    assert DataBitsTo(e, 2) == "";
    assert DataBitsTo(e, 4) == "1";
    assert DataBitsTo(e, 7) == "1111";
    assert DataBitsTo(e, 8) == "1111";
  }

  /** Flipping position 9 of 011111111. */
  lemma FlipNine()
    ensures Flip("011111111", 9) == "011111110"
  {
  }

  /**
    The decoder as written: flipping position 9 of 011111111 gives 011111110,
    which is "corrected" at position 1 and decodes to 11110 instead of 11111.
   */
  lemma MissedError11111()
    ensures Flip("011111111", 9) == "011111110"
    ensures Decode("011111110") == "11110"
  {
    FlipNine();
    ErrorPosition011111110();
    assert Flip("011111110", 1) == "111111110";
    DataBits111111110();
  }

  /** The corrected decoder, checking all four groups, restores 11111 from the same codeword. */
  lemma FixedDecoder11111()
    ensures DecodeAllGroups("011111110") == Some("11111")
  {
    Encoding11111();
    PlannedEncodingIsFull("011111111", "11111");
    FlipNine();
    EncodeFlipDecodeAllGroups("011111111", "11111", 9);
  }

  /** `hammingEncode("101")` is PP1: no parity bits, two placeholders, and only the first data bit kept. */
  lemma Encoding101(c: string)
    requires IsEncodingOf(c, "101")
    ensures c == "PP1"
  {
    assert |c| == 3;
    assert Pow2(0) == 1;
    assert IsPow2(1) && IsPow2(2) && !IsPow2(3) && DataCount(2) == 0;
    assert c[0] == 'P' && c[1] == 'P' && c[2] == '1';
  }

  /** The corrected encoder turns 101 into 101101: parity bits 1, 0, 1 at positions 1, 2 and 4. */
  lemma FullEncoding101()
    ensures IsFullEncodingOf("101101", "101")
  {
    var c, d := "101101", "101";
    LowPositions();
    assert Pow2(3) == 8 && Pow2(2) == 4;
    assert LeastEnough(3, 3);
    assert DataCount(2) == 0 && DataCount(4) == 1 && DataCount(5) == 2;
    forall i | 0 <= i < 6 && !IsPow2(i + 1) ensures DataCount(i) < |d| && c[i] == d[DataCount(i)] {
      assert i == 2 || i == 4 || i == 5;
    }
    assert GroupParity(c, 0, 6) == 0 && GroupParity(c, 1, 6) == 0 && GroupParity(c, 2, 6) == 0;
    forall k | 0 <= k < 3 ensures GroupParity(c, k, |c|) == 0 {
      assert k == 0 || k == 1 || k == 2;
    }
  }

  /** 101101 decodes back to 101, as written and with every group checked. */
  lemma Decoding101()
    ensures Decode("101101") == "101" && DecodeAllGroups("101101") == Some("101")
  {
    FullEncoding101();
    assert IsBinary("101");
    AllSizesEncodeDecode("101101", "101");
  }
}

/**
  The receiver side (receptor.py): the binary-input check, the Hamming decoder,
  which recomputes floor(log2(n + 1)) check groups, toggles the position the
  syndrome names and extracts the data positions, and the Fletcher checksum over
  fixed-size blocks of the bit string.
 */
module Receptor {
  import opened BitOps
  import opened Hamming

  /** `is_binary`: every character is '0' or '1'. */
  function IsBinary(s: string): (b: bool)
    ensures b <==> forall i :: 0 <= i < |s| ==> s[i] == '0' || s[i] == '1'
  {
    if s == [] then true
    else (s[0] == '0' || s[0] == '1') && IsBinary(s[1..])
  }

  /** Binary strings are closed under concatenation. */
  lemma IsBinaryAppend(s: string, t: string)
    ensures IsBinary(s + t) <==> IsBinary(s) && IsBinary(t)
  {
    assert forall i :: 0 <= i < |s| ==> (s + t)[i] == s[i];
    assert forall i :: 0 <= i < |t| ==> (s + t)[|s| + i] == t[i];
  }

  // ---------------------------------------------------------------------------
  // Hamming decoding
  // ---------------------------------------------------------------------------

  /** The number of check groups the decoder recomputes: `int(math.log2(n + 1))`. */
  function CheckedGroups(n: nat): (r: nat)
    ensures Pow2(r) <= n + 1 < Pow2(r + 1)
  {
    Log2Floor(n + 1)
  }

  /**
    The decoder's `error_position`: the syndrome over the checked groups. It
    always names a position of the codeword (or none), so the correction never
    indexes outside it.
   */
  function ErrorPosition(c: string): (s: nat)
    ensures s <= |c|
  {
    Syndrome(c, CheckedGroups(|c|))
  }

  /**
    The decoder's `m = n - r`, which it never uses: it is the number of data
    positions of 1..n when n + 1 is a power of two, and one more otherwise.
   */
  lemma ComputedDataLength(n: nat)
    requires n >= 1
    ensures n - CheckedGroups(n) == DataCount(n) + (if IsPow2(n + 1) then 0 else 1)
  {
    DataCountLog(n);
    if IsPow2(n + 1) {
      Log2FloorBelowPower(n + 1);
    } else {
      Log2FloorBelowNonPower(n + 1);
    }
  }

  /** The codeword after the correction step: position `error_position` toggled when it is non-zero. */
  function Corrected(c: string): (d: string)
    ensures |d| == |c|
    ensures forall i :: 0 <= i < |c| ==> d[i] == if i + 1 == ErrorPosition(c) then Toggle(c[i]) else c[i]
  {
    var s := ErrorPosition(c);
    if s == 0 then c else Flip(c, s)
  }

  /** What `hamming_decode` returns: the data positions of the corrected codeword. */
  function Decode(c: string): (d: string)
    ensures |d| == DataCount(|c|)
  {
    DataBits(Corrected(c))
  }

  /** The syndrome loop of `hamming_decode`: `error_position` accumulated over the checked groups. */
  method ComputeErrorPosition(encodedData: string) returns (errorPosition: nat)
    ensures errorPosition == ErrorPosition(encodedData)
  {
    var n := |encodedData|;
    var r := Log2Floor(n + 1);
    errorPosition := 0;
    for i := 0 to r
      invariant errorPosition == Syndrome(encodedData, i)
    {
      var parityPos := Pow2(i);
      var parity := 0;
      for j := 1 to n + 1
        invariant parity == GroupParity(encodedData, i, j - 1)
      {
        if And(j, parityPos) != 0 {
          parity := (parity + Val(encodedData[j - 1])) % 2;
        }
      }
      errorPosition := errorPosition + parity * parityPos;
    }
  }

  /** The extraction loop of `hamming_decode`: the characters at positions i with `i & (i - 1) != 0`. */
  method ExtractData(encodedData: string) returns (decoded: string)
    ensures decoded == DataBits(encodedData)
  {
    var n := |encodedData|;
    decoded := [];
    for i := 1 to n + 1
      invariant decoded == DataBitsTo(encodedData, i - 1)
    {
      if And(i, i - 1) != 0 {
        decoded := decoded + [encodedData[i - 1]];
      }
    }
  }

  /** `hamming_decode`, with the two diagnostic prints left out. */
  method HammingDecode(encodedData: string) returns (decoded: string)
    requires IsBinary(encodedData)
    ensures decoded == Decode(encodedData)
  {
    var errorPosition := ComputeErrorPosition(encodedData);
    var corrected := encodedData;
    if errorPosition != 0 {
      corrected := encodedData[errorPosition - 1 := if encodedData[errorPosition - 1] == '1' then '0' else '1'];
    }
    decoded := ExtractData(corrected);
  }

  /** The decoder reports no error exactly when every checked group has even parity. */
  lemma NoErrorIff(c: string)
    ensures ErrorPosition(c) == 0 <==> GroupsEven(c, CheckedGroups(|c|))
  {
    SyndromeZeroIff(c, CheckedGroups(|c|));
  }

  /** A codeword whose checked groups are all even passes through unchanged. */
  lemma CleanCodewordDecodes(c: string)
    requires GroupsEven(c, CheckedGroups(|c|))
    ensures Corrected(c) == c && Decode(c) == DataBits(c)
  {
    NoErrorIff(c);
  }

  /**
    Single-error correction inside the checked range: a codeword whose checked
    groups are even, hit by one flip at a position below 2^CheckedGroups, is
    located exactly and restored, so its payload is recovered.
   */
  lemma SingleErrorCorrected(c: string, p: nat)
    requires IsBinary(c) && GroupsEven(c, CheckedGroups(|c|))
    requires 1 <= p <= |c| && p < Pow2(CheckedGroups(|c|))
    ensures ErrorPosition(Flip(c, p)) == p
    ensures Corrected(Flip(c, p)) == c && Decode(Flip(c, p)) == DataBits(c)
  {
    var r := CheckedGroups(|c|);
    FlipSyndrome(c, p, r);
    GroupBitsOfSmall(p, r);
    FlipTwice(c, p);
  }

  /** When n + 1 is a power of two every position is below 2^CheckedGroups: every single error is corrected. */
  lemma PerfectLengthCorrectsAll(c: string, p: nat)
    requires IsBinary(c) && GroupsEven(c, CheckedGroups(|c|)) && IsPow2(|c| + 1)
    requires 1 <= p <= |c|
    ensures Decode(Flip(c, p)) == DataBits(c)
  {
    IsPow2Iff(|c| + 1);
    SingleErrorCorrected(c, p);
  }

  /**
    The decoder as written checks only floor(log2(n + 1)) groups. A flip at a
    position p >= 2^CheckedGroups leaves a syndrome of p - 2^CheckedGroups: the
    error is missed or pinned on another position, and the corrected codeword
    differs from the sent one.
   */
  lemma HighErrorMisplaced(c: string, p: nat)
    requires IsBinary(c) && GroupsEven(c, CheckedGroups(|c|))
    requires 1 <= p <= |c| && Pow2(CheckedGroups(|c|)) <= p
    ensures ErrorPosition(Flip(c, p)) == p - Pow2(CheckedGroups(|c|))
    ensures Corrected(Flip(c, p))[p - 1] != c[p - 1]
  {
    var r := CheckedGroups(|c|);
    FlipSyndrome(c, p, r);
    GroupBitsOfBracket(p, r);
  }

  /** When that missed position carries data, the returned payload is wrong at the matching index. */
  lemma HighDataErrorCorrupts(c: string, p: nat)
    requires IsBinary(c) && GroupsEven(c, CheckedGroups(|c|))
    requires 1 <= p <= |c| && Pow2(CheckedGroups(|c|)) <= p && !IsPow2(p)
    ensures DataCount(p - 1) < |DataBits(c)|
    ensures Decode(Flip(c, p))[DataCount(p - 1)] != DataBits(c)[DataCount(p - 1)]
    ensures Decode(Flip(c, p)) != DataBits(c)
  {
    HighErrorMisplaced(c, p);
    DataBitsAt(c, p, |c|);
    DataBitsAt(Corrected(Flip(c, p)), p, |c|);
  }

  datatype Option<T> = None | Some(value: T)

  /** The number of parity positions among 1..n: the powers of two up to n. */
  function ParityCount(n: nat): nat
  {
    n - DataCount(n)
  }

  /**
    The decoder with the evidently intended group count: all parity positions of
    1..n are checked, so the syndrome can name every position; a syndrome beyond
    n (possible only with more than one error) is reported as None.
   */
  function DecodeAllGroups(c: string): (d: Option<string>)
    ensures d.Some? ==> |d.value| == DataCount(|c|)
  {
    var s := Syndrome(c, ParityCount(|c|));
    if s == 0 then Some(DataBits(c))
    else if s <= |c| then Some(DataBits(Flip(c, s)))
    else None
  }

  /** With every parity position checked, any single flip anywhere in the codeword is corrected. */
  lemma AllGroupsCorrectSingleError(c: string, p: nat)
    requires IsBinary(c) && GroupsEven(c, ParityCount(|c|))
    requires 1 <= p <= |c|
    ensures DecodeAllGroups(Flip(c, p)) == Some(DataBits(c))
  {
    var r := ParityCount(|c|);
    DataCountLog(|c|);
    assert r == Log2Floor(|c|) + 1;
    assert p < Pow2(r);
    FlipSyndrome(c, p, r);
    GroupBitsOfSmall(p, r);
    var d := Flip(c, p);
    assert Syndrome(d, ParityCount(|d|)) == p;
    FlipTwice(c, p);
    assert DecodeAllGroups(d) == Some(DataBits(Flip(d, p)));
  }

  /** An intact codeword decodes to its payload under the corrected decoder too. */
  lemma AllGroupsCleanCodeword(c: string)
    requires GroupsEven(c, ParityCount(|c|))
    ensures DecodeAllGroups(c) == Some(DataBits(c))
  {
    SyndromeZeroIff(c, ParityCount(|c|));
  }

  // ---------------------------------------------------------------------------
  // Fletcher checksum
  // ---------------------------------------------------------------------------

  /** Outcome of an operation that may raise `ValueError`. */
  datatype Checked<T> = Ok(value: T) | ValueError(message: string)

  /** The accepted block sizes. */
  predicate ValidBlockSize(b: int)
  {
    b == 8 || b == 16 || b == 32
  }

  /** `'0' * k`. */
  function Zeros(k: nat): (z: string)
    ensures |z| == k && forall i :: 0 <= i < k ==> z[i] == '0'
  {
    if k == 0 then [] else Zeros(k - 1) + ['0']
  }

  /** Rounding up to the block size: adding `b - x % b` to an unaligned length aligns it. */
  lemma AlignUp(x: nat, b: int)
    requires ValidBlockSize(b)
    ensures x % b != 0 ==> (x + (b - x % b)) % b == 0
  {
    if b == 8 {
    } else if b == 16 {
    } else {
    }
  }

  /** An aligned non-empty length holds at least one block, and dropping it stays aligned. */
  lemma AlignedStep(n: nat, b: int)
    requires ValidBlockSize(b) && n % b == 0 && n > 0
    ensures n >= b && (n - b) % b == 0
  {
    if b == 8 {
    } else if b == 16 {
    } else {
    }
  }

  /** n is a whole number of blocks of size b, counted one block at a time. */
  predicate Aligned(n: nat, b: int)
    requires b > 0
    decreases n
  {
    n == 0 || (n >= b && Aligned(n - b, b))
  }

  /** A multiple of the block size is a whole number of blocks. */
  lemma {:induction false} ModAligned(n: nat, b: int)
    requires ValidBlockSize(b) && n % b == 0
    ensures Aligned(n, b)
  {
    if n > 0 {
      AlignedStep(n, b);
      ModAligned(n - b, b);
    }
  }

  /** The next block of an aligned, unfinished scan lies inside the aligned string. */
  lemma {:induction false} NextBlock(i: nat, n: nat, b: int)
    requires b > 0 && Aligned(i, b) && Aligned(n, b) && i < n
    ensures i + b <= n && Aligned(i + b, b)
  {
    if i > 0 {
      NextBlock(i - b, n - b, b);
    }
  }

  /** Two aligned lengths in the same window [y, y + b) coincide. */
  lemma AlignedInWindow(p: nat, q: nat, y: nat, b: int)
    requires ValidBlockSize(b) && p % b == 0 && q % b == 0
    requires y <= p < y + b && y <= q < y + b
    ensures p == q
  {
    if b == 8 {
    } else if b == 16 {
    } else {
    }
  }

  /** The padding step: zeros appended up to the next multiple of the block size. */
  function Padded(data: string, b: int): (p: string)
    requires ValidBlockSize(b)
    ensures |p| % b == 0 && Aligned(|p|, b) && |data| <= |p| < |data| + b
    ensures p[..|data|] == data && forall i :: |data| <= i < |p| ==> p[i] == '0'
  {
    AlignUp(|data|, b);
    if |data| % b != 0 then
      ModAligned(|data| + (b - |data| % b), b);
      data + Zeros(b - |data| % b)
    else
      ModAligned(|data|, b);
      data
  }

  /** `int(block, 2)`: the big-endian value of a bit string. */
  function BinaryValue(s: string): nat
  {
    if s == [] then 0 else 2 * BinaryValue(s[..|s| - 1]) + Val(s[|s| - 1])
  }

  /** A string of k bits has a value below 2^k, so a block value fits in the block. */
  lemma {:induction false} BinaryValueBound(s: string)
    ensures BinaryValue(s) < Pow2(|s|)
  {
    if s != [] {
      BinaryValueBound(s[..|s| - 1]);
    }
  }

  /** The values of the consecutive blocks of the first i characters of p, in order. */
  function BlockValuesTo(p: string, i: nat, b: int): (vs: seq<nat>)
    requires b > 0 && Aligned(i, b) && i <= |p|
  {
    if i == 0 then []
    else BlockValuesTo(p, i - b, b) + [BinaryValue(p[i - b..i])]
  }

  /** The values of the consecutive blocks of an aligned string, in order. */
  function BlockValues(p: string, b: int): (vs: seq<nat>)
    requires b > 0 && Aligned(|p|, b)
  {
    BlockValuesTo(p, |p|, b)
  }

  /** The pair (sum1, sum2) after folding the block values in order. */
  function Sums(vs: seq<nat>): (s: (nat, nat))
    ensures s.0 < 255 && s.1 < 255
  {
    if vs == [] then (0, 0)
    else
      var prev := Sums(vs[..|vs| - 1]);
      var sum1 := (prev.0 + vs[|vs| - 1]) % 255;
      (sum1, (prev.1 + sum1) % 255)
  }

  /** One more block value takes one more step of the fold. */
  lemma SumsNext(vs: seq<nat>, v: nat, sum1: nat, sum2: nat)
    requires Sums(vs) == (sum1, sum2)
    ensures Sums(vs + [v]) == ((sum1 + v) % 255, (sum2 + (sum1 + v) % 255) % 255)
  {
    assert (vs + [v])[..|vs|] == vs;
  }

  /** `(sum2 << 8) | sum1`. */
  function Pack(sum1: nat, sum2: nat): (v: nat)
  {
    Or(ShiftLeft(sum2, 8), sum1)
  }

  /** `fletcher_checksum` as a value: ValueError for a bad block size, else the packed sums. */
  function Checksum(data: string, b: int): (r: Checked<nat>)
    ensures r.ValueError? <==> !ValidBlockSize(b)
  {
    if !ValidBlockSize(b) then ValueError("Block size must be 8, 16, or 32")
    else
      var s := Sums(BlockValues(Padded(data, b), b));
      Ok(Pack(s.0, s.1))
  }

  /** The sums after the loop has consumed the first i characters of p, block by block. */
  function FoldTo(p: string, i: nat, b: int): (s: (nat, nat))
    requires b > 0 && Aligned(i, b) && i <= |p|
  {
    if i == 0 then (0, 0)
    else
      var prev := FoldTo(p, i - b, b);
      var sum1 := (prev.0 + BinaryValue(p[i - b..i])) % 255;
      (sum1, (prev.1 + sum1) % 255)
  }

  /** The loop state is the fold of the block values seen so far. */
  lemma {:induction false} FoldToSums(p: string, i: nat, b: int)
    requires b > 0 && Aligned(i, b) && i <= |p|
    ensures FoldTo(p, i, b) == Sums(BlockValuesTo(p, i, b))
  {
    if i > 0 {
      FoldToSums(p, i - b, b);
      var prev := FoldTo(p, i - b, b);
      SumsNext(BlockValuesTo(p, i - b, b), BinaryValue(p[i - b..i]), prev.0, prev.1);
    }
  }

  /** The block loop of `fletcher_checksum`: fold the block values of an aligned string into the two sums. */
  method FoldBlocks(padded: string, blockSize: int) returns (sum1: nat, sum2: nat)
    requires blockSize > 0 && Aligned(|padded|, blockSize)
    ensures (sum1, sum2) == Sums(BlockValues(padded, blockSize))
  {
    sum1, sum2 := 0, 0;
    var i := 0;
    while i < |padded|
      invariant 0 <= i <= |padded| && Aligned(i, blockSize)
      invariant (sum1, sum2) == FoldTo(padded, i, blockSize)
    {
      NextBlock(i, |padded|, blockSize);
      var block := padded[i..i + blockSize];
      var blockValue := BinaryValue(block);
      sum1 := (sum1 + blockValue) % 255;
      sum2 := (sum2 + sum1) % 255;
      i := i + blockSize;
    }
    FoldToSums(padded, i, blockSize);
  }

  /** `fletcher_checksum`: validate, pad, fold the blocks, pack the two sums. */
  method FletcherChecksum(data: string, blockSize: int) returns (result: Checked<nat>)
    requires IsBinary(data)
    ensures result == Checksum(data, blockSize)
  {
    if !(blockSize == 8 || blockSize == 16 || blockSize == 32) {
      return ValueError("Block size must be 8, 16, or 32");
    }
    var padded := data;
    if |data| % blockSize != 0 {
      var paddingSize := blockSize - |data| % blockSize;
      padded := data + Zeros(paddingSize);
    }
    assert padded == Padded(data, blockSize);
    var sum1, sum2 := FoldBlocks(padded, blockSize);
    return Ok(Or(ShiftLeft(sum2, 8), sum1));
  }

  /** The sum of the block values. */
  function Total(vs: seq<nat>): (t: nat)
    ensures vs != [] ==> t >= vs[|vs| - 1]
  {
    if vs == [] then 0 else Total(vs[..|vs| - 1]) + vs[|vs| - 1]
  }

  /** The sum of the running totals after each block. */
  function Running(vs: seq<nat>): (t: nat)
    ensures vs != [] ==> t >= Total(vs)
  {
    if vs == [] then 0 else Running(vs[..|vs| - 1]) + Total(vs)
  }

  /**
    Reducing as the loop goes gives Fletcher's sums: sum1 is the total of the
    block values mod 255 and sum2 the total of the running totals mod 255.
   */
  lemma {:induction false} SumsReference(vs: seq<nat>)
    ensures Sums(vs) == (Total(vs) % 255, Running(vs) % 255)
  {
    if vs != [] {
      var init := vs[..|vs| - 1];
      var v := vs[|vs| - 1];
      SumsReference(init);
      ModAdd(Total(init), v);
      ModAdd(Running(init), Total(vs));
      ModAdd(Total(vs), Running(init) % 255);
    }
  }

  /** Reducing an addend mod 255 first does not change the sum mod 255. */
  lemma ModAdd(a: nat, b: nat)
    ensures (a % 255 + b) % 255 == (a + b) % 255
  {
    var q := a / 255;
    assert a == 255 * q + a % 255;
  }

  /** Shifting sum2 eight bits up leaves the low byte free for sum1. */
  lemma PackIsSum(sum1: nat, sum2: nat)
    requires sum1 < 256
    ensures Pack(sum1, sum2) == 256 * sum2 + sum1
  {
    assert Pow2(8) == 256;
    OrShifted(sum2, sum1, 8);
    ShiftLeftIsProduct(sum2, 8);
  }

  /** The packed value keeps sum2 in the high byte and sum1 in the low byte. */
  lemma PackUnpack(sum1: nat, sum2: nat)
    requires sum1 < 256
    ensures Pack(sum1, sum2) == 256 * sum2 + sum1
    ensures Pack(sum1, sum2) % 256 == sum1 && Pack(sum1, sum2) / 256 == sum2
  {
    PackIsSum(sum1, sum2);
    var v := 256 * sum2 + sum1;
    assert v % 256 == sum1 && v / 256 == sum2;
  }

  /**
    The checksum of a valid block size is 256 * (Running % 255) + (Total % 255)
    over the blocks of the padded string, a 16-bit value whose bytes are both below 255.
   */
  lemma ChecksumReference(data: string, b: int)
    requires ValidBlockSize(b)
    ensures Checksum(data, b).Ok?
    ensures var vs := BlockValues(Padded(data, b), b);
      Checksum(data, b).value == 256 * (Running(vs) % 255) + Total(vs) % 255
    ensures Checksum(data, b).value % 256 < 255 && Checksum(data, b).value / 256 < 255
  {
    var vs := BlockValues(Padded(data, b), b);
    SumsReference(vs);
    PackUnpack(Sums(vs).0, Sums(vs).1);
  }

  /** The empty message has checksum 0. */
  lemma EmptyChecksum(b: int)
    requires ValidBlockSize(b)
    ensures Checksum([], b) == Ok(0)
  {
    PackUnpack(0, 0);
  }

  /**
    Zeros appended inside the last, padded block do not change the checksum: the
    padding makes the checksum blind to trailing zeros up to the block boundary.
   */
  lemma TrailingZerosInvisible(data: string, k: nat, b: int)
    requires ValidBlockSize(b) && |data| + k <= |Padded(data, b)|
    ensures Checksum(data + Zeros(k), b) == Checksum(data, b)
  {
    var p, q := Padded(data, b), Padded(data + Zeros(k), b);
    var y := |data| + k;
    AlignedInWindow(|p|, |q|, y, b);
    forall i | 0 <= i < |p| ensures q[i] == p[i] {
      if i < |data| {
        assert q[i] == q[..y][i] == (data + Zeros(k))[i];
      } else if i < y {
        assert q[i] == q[..y][i] == (data + Zeros(k))[i] == '0';
      }
    }
    assert q == p;
  }
}

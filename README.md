# Hamming codec and Fletcher checksum

A verified model of a small error-control toolkit. It has two sides.

- **Sender** (`hammingCorrection.cpp`): a Hamming encoder.
  - It chooses the number r of parity bits for an m-bit message.
  - It lays the data bits out at the positions 1..m + r that are not powers of two, with the placeholder `'P'` at the others.
  - It then writes each parity bit 2^i so that its check group has even parity. The check group of 2^i is the positions j with `j & 2^i != 0`.
- **Receiver** (`receptor.py`):
  - a binary-input check;
  - a Hamming decoder. It recomputes `int(log2(n + 1))` check groups, toggles the position the syndrome names, and returns the characters at the positions that are not powers of two;
  - Fletcher's checksum over the bit string. The string is cut into blocks of 8, 16 or 32 bits, zero-padded to a whole block, and the block values are folded into two sums mod 255. The result is `(sum2 << 8) | sum1`.

Modules:

- `BitOps`: exact integer models of `2**i` and `std::pow(2, i)`.
  - Bitwise AND and OR on naturals, the shift, and the power-of-two test `i & (i - 1) == 0`.
  - The floor of log2.
- `Hamming`: the conventions both sides share.
  - Positions, check groups, group parity, the syndrome, a bit flip and payload extraction.
  - The Hamming bound and the parity-bit planner, as written and corrected.
- `HammingCorrection`: the encoder.
  - The placement loop works in place on an `array<char>`.
  - It is specified by the predicate `IsEncodingOf` (data laid out in order, parity slots filled, every check group even). A uniqueness lemma shows that this predicate pins the output down completely.
- `Receptor`: the receiver.
  - The decoder and its loops, each proved equal to a specification function.
  - What the decoder corrects and what it does not.
  - The decoder with all groups checked.
  - The checksum: its loop is proved equal to a fold, and the fold is proved equal to Fletcher's closed form.
- `RoundTrip`: what the two sides promise each other. Encoded payloads decode back, single errors are corrected, and there are two failures of the code as written.
- `Examples`: worked codewords. 1011 ↔ 0110011; 11111 ↔ 011111111 with position 9 flipped; 101 ↔ PP1 as written and 101101 when corrected.

Modelling conventions:

- A character contributes 1 to a parity exactly when it is `'1'`, so `'P'` counts as 0, as in the encoder's `== '1' ? 1 : 0`.
- The running XOR of bits is written `(parity + v) % 2`.
- Integers are unbounded.

## Model

| member | source | states |
|---|---|---|
| `BitOps.Log2Floor` | receptor.py:23 | `int(math.log2(x))` read exactly: the k with 2^k <= x < 2^(k+1) |
| `BitOps.IsPow2Iff` | receptor.py:48 | the test `p & (p - 1) == 0` holds of p >= 1 exactly when p is a power of two |
| `BitOps.Pow2IsPow2` | hammingCorrection.cpp:30 | every 2^k passes the placement loop's power-of-two test, and its log2 is k |
| `BitOps.BracketLog` | receptor.py:23 | for 2^k < n < 2^(k+1), floor(log2(n + 1)) is k + 1 if n + 1 is a power of two and k otherwise |
| `BitOps.OrShifted` | receptor.py:74 | OR-ing a value below 2^k into a value shifted left by k bits is addition |
| `BitOps.ShiftLeftIsProduct` | receptor.py:74 | `a << k` is a * 2^k |
| `Hamming.PowerInGroup` | hammingCorrection.cpp:47 | parity position 2^i lies in check group k (`j & 2^k`) exactly when i == k |
| `Hamming.GroupParity` | hammingCorrection.cpp:44-51 | the XOR over a check group is a single bit |
| `Hamming.GroupParityUpdate` | hammingCorrection.cpp:52 | overwriting one character changes a group's parity only when that position is in the group |
| `Hamming.Syndrome` | receptor.py:26-35 | the accumulated `error_position` over r groups is below 2^r |
| `Hamming.SyndromeZeroIff` | receptor.py:37 | the syndrome is zero if and only if every checked group is even |
| `Hamming.Flip` | receptor.py:39-42 | toggling position p changes that character and no other |
| `Hamming.FlipTwice` | receptor.py:40-41 | toggling a bit twice restores the codeword |
| `Hamming.FlipGroupParity` | receptor.py:33-34 | one flip inverts the parity of exactly the groups that contain the flipped position |
| `Hamming.FlipSyndrome` | receptor.py:29-35 | after one flip in a codeword with even groups, the syndrome is the sum of 2^k over the groups that contain the flipped position |
| `Hamming.GroupBitsOfSmall` | receptor.py:35 | for p < 2^r, those group bits add up to p itself, so the syndrome names the flipped position |
| `Hamming.GroupBitsOfBracket` | receptor.py:35 | for 2^r <= p < 2^(r+1), the low r group bits add up to p - 2^r |
| `Hamming.DataCountLog` | receptor.py:47-49 | 1..n has n - floor(log2 n) - 1 data positions, the length of the extracted payload |
| `Hamming.DataBits` | receptor.py:46-51 | the extracted payload has one character per data position |
| `Hamming.DataBitsAt` | receptor.py:47-49 | data position p lands at index DataCount(p - 1) of the payload |
| `Hamming.DataBitsOfLayout` | receptor.py:46-51 | extracting from a codeword whose data positions hold data in order returns data |
| `Hamming.EnoughBelowM` | hammingCorrection.cpp:8-13 | for m >= 4 the bound m + r + 1 <= 2^r already holds at r = m - 1, inside the search range |
| `Hamming.SmallPayloadNoParity` | hammingCorrection.cpp:15 | for m <= 3 no r < m satisfies the bound, so the fallback `return 0` is taken |
| `Hamming.PlannedUnique` | hammingCorrection.cpp:6-16 | the planner's answer is determined by m |
| `Hamming.LeastLayout` | hammingCorrection.cpp:21-23 | with the least r and m >= 1: 2^(r-1) < n < 2^r, log2 n = r - 1, and exactly m data positions |
| `Hamming.PlannedLayout` | hammingCorrection.cpp:21-23 | for m >= 4 the planned layout has 3 <= r < m and exactly m data positions |
| `Hamming.PlannedFits` | hammingCorrection.cpp:27-38 | under either planner, `data[j]` never reads past the payload |
| `Hamming.EnoughAbove` | hammingCorrection.cpp:8 | the bound holds at r = m + 1, so an unbounded search always stops |
| `Hamming.CalculateParityBits` | hammingCorrection.cpp:6-16 | returns the least r < m with m + r + 1 <= 2^r for m >= 4, and 0 for m <= 3; `calculate_parity_bits` (receptor.py:6-10) is the same function |
| `Hamming.LeastParityBits` | hammingCorrection.cpp:8-15 | corrected planner: the least r with m + r + 1 <= 2^r, for every m |
| `HammingCorrection.ParityPositionInside` | hammingCorrection.cpp:43-52 | under either planner every parity position 2^k, k < r, is inside the codeword |
| `HammingCorrection.ParityWriteStep` | hammingCorrection.cpp:41-53 | writing group k's parity at 2^k keeps the data, fills slot k and makes groups 0..k even |
| `HammingCorrection.Layout` | hammingCorrection.cpp:27-39 | the placement has one character per position |
| `HammingCorrection.LayoutPlacesData` | hammingCorrection.cpp:27-39 | the placement puts data in order at the data positions and `'P'` at every parity position |
| `HammingCorrection.LayOut` | hammingCorrection.cpp:25-39 | the placement loop fills a fresh array with exactly that placement |
| `HammingCorrection.GroupParityOf` | hammingCorrection.cpp:43-51 | the inner loop computes the parity of check group k |
| `HammingCorrection.EncodeWith` | hammingCorrection.cpp:21-55 | with r from either planner, the output has length m + r, data laid out, parity slots below 2^r filled, and all r groups even |
| `HammingCorrection.HammingEncode` | hammingCorrection.cpp:19-56 | the output is an encoding of data (`IsEncodingOf`) |
| `HammingCorrection.HammingEncodeAllSizes` | hammingCorrection.cpp:19-56 | corrected encoder: the output is the least-count encoding of data for every payload length |
| `HammingCorrection.PlannedEncodingIsFull` | hammingCorrection.cpp:6-16 | for m >= 4 an encoding as written is a least-count encoding |
| `HammingCorrection.EncodingPayload` | hammingCorrection.cpp:27-39 | the data positions of a least-count encoding read back the payload |
| `HammingCorrection.EncodingIsBinary` | hammingCorrection.cpp:41-53 | a least-count encoding of binary data contains only `'0'` and `'1'` |
| `HammingCorrection.SmallPayloadKeepsPlaceholders` | hammingCorrection.cpp:30-32 | for m <= 3 the output has length m and every power-of-two position keeps `'P'` |
| `HammingCorrection.ParityBitDetermined` | hammingCorrection.cpp:52 | the data bits and an even group k fix the parity bit at 2^k |
| `HammingCorrection.StageUnique` | hammingCorrection.cpp:25-53 | two codewords of one length at the same stage for the same data are equal |
| `HammingCorrection.EncodingUnique` | hammingCorrection.cpp:19-56 | `IsEncodingOf` determines the output: `hammingEncode` has one possible result |
| `HammingCorrection.EncodersAgree` | hammingCorrection.cpp:6-16 | for m >= 4 the corrected encoder returns exactly what `hammingEncode` returns |
| `Receptor.IsBinary` | receptor.py:15-16 | true exactly when every character is `'0'` or `'1'` |
| `Receptor.IsBinaryAppend` | receptor.py:15-16 | a concatenation is binary if and only if both parts are |
| `Receptor.CheckedGroups` | receptor.py:23 | the decoder checks floor(log2(n + 1)) groups |
| `Receptor.ComputedDataLength` | receptor.py:24 | the decoder's m = n - r equals the number of data positions when n + 1 is a power of two, and is one too high otherwise |
| `Receptor.ErrorPosition` | receptor.py:26-35 | `error_position` never exceeds n, so the correction indexes inside the codeword |
| `Receptor.Corrected` | receptor.py:37-42 | the character at the error position is toggled and every other character is kept; with error position 0 nothing changes |
| `Receptor.Decode` | receptor.py:21-51 | the decoded payload has one character per data position of the input |
| `Receptor.ComputeErrorPosition` | receptor.py:22-35 | the syndrome loop computes the error position |
| `Receptor.ExtractData` | receptor.py:46-51 | the extraction loop returns the data positions in order |
| `Receptor.HammingDecode` | receptor.py:21-51 | `hamming_decode` returns the decoded payload of the corrected codeword |
| `Receptor.NoErrorIff` | receptor.py:37 | no error is reported if and only if every checked group is even |
| `Receptor.CleanCodewordDecodes` | receptor.py:37-51 | a codeword with even checked groups passes unchanged and decodes to its data positions |
| `Receptor.SingleErrorCorrected` | receptor.py:29-42 | a single flip below 2^CheckedGroups is located exactly and undone |
| `Receptor.PerfectLengthCorrectsAll` | receptor.py:23 | when n + 1 is a power of two, every single flip is corrected |
| `Receptor.HighErrorMisplaced` | receptor.py:23-42 | a flip at p >= 2^CheckedGroups yields syndrome p - 2^CheckedGroups and stays uncorrected |
| `Receptor.HighDataErrorCorrupts` | receptor.py:23-51 | if that position carries data, the returned payload is wrong at the matching index |
| `Receptor.DecodeAllGroups` | receptor.py:23 | corrected decoder: checks every parity position of 1..n; the payload has one character per data position |
| `Receptor.AllGroupsCorrectSingleError` | receptor.py:29-42 | with every group checked, any single flip anywhere is corrected |
| `Receptor.AllGroupsCleanCodeword` | receptor.py:37-51 | with every group checked, an intact codeword decodes to its data positions |
| `Receptor.Zeros` | receptor.py:63 | `'0' * k` has k characters, all `'0'` |
| `Receptor.Padded` | receptor.py:60-63 | the padded string starts with data, continues with fewer than one block of zeros, and ends at a block boundary |
| `Receptor.BinaryValueBound` | receptor.py:70 | `int(block, 2)` of a k-bit block is below 2^k |
| `Receptor.Sums` | receptor.py:65-72 | both running sums stay below 255 |
| `Receptor.SumsNext` | receptor.py:71-72 | one more block performs one step of each sum |
| `Receptor.Checksum` | receptor.py:56-74 | `ValueError` exactly when the block size is not 8, 16 or 32 |
| `Receptor.FoldToSums` | receptor.py:68-72 | after each block the loop state equals the fold of the block values seen so far |
| `Receptor.FoldBlocks` | receptor.py:65-72 | the block loop returns the fold of all block values |
| `Receptor.FletcherChecksum` | receptor.py:56-74 | `fletcher_checksum` returns the checksum value, including the `ValueError` case |
| `Receptor.SumsReference` | receptor.py:65-72 | sum1 is (total of the block values) mod 255; sum2 is (total of the running totals) mod 255 |
| `Receptor.PackIsSum` | receptor.py:74 | sum2 shifted left by 8 bits and OR-ed with sum1 is 256 * sum2 + sum1 when sum1 < 256 |
| `Receptor.PackUnpack` | receptor.py:74 | the packed value keeps sum1 in its low byte and sum2 above it |
| `Receptor.ChecksumReference` | receptor.py:56-74 | for a valid block size the result is 256 * (Running mod 255) + (Total mod 255), and both bytes are below 255 |
| `Receptor.EmptyChecksum` | receptor.py:61-74 | the empty message has checksum 0 |
| `Receptor.TrailingZerosInvisible` | receptor.py:61-63 | zeros appended inside the padded last block do not change the checksum |
| `RoundTrip.LayoutCheckedGroups` | receptor.py:23 | for a least-count layout the decoder checks all r groups if n + 1 is a power of two and r - 1 otherwise; 1..n has r parity positions |
| `RoundTrip.EncodingGroups` | hammingCorrection.cpp:41-53 | a least-count encoding has all its groups even and those group counts |
| `RoundTrip.GroupsEvenPrefix` | receptor.py:29 | checking fewer groups than were written still finds them even |
| `RoundTrip.EncodeDecode` | receptor.py:21-51 | the decoder reports no error on an encoding and returns its payload |
| `RoundTrip.EncodeFlipDecode` | receptor.py:29-51 | one flip of an encoding below 2^CheckedGroups is located and the payload is recovered |
| `RoundTrip.PerfectEncodingCorrectsAll` | receptor.py:23 | for n = 7, 15, 31, ... every single flip of an encoding is corrected |
| `RoundTrip.LastPositionUnchecked` | receptor.py:23 | when n + 1 is not a power of two, position n is a data position beyond the checked groups |
| `RoundTrip.LastPositionErrorMissed` | receptor.py:23 | the decoder as written: a flip of position n then yields the wrong payload |
| `RoundTrip.EncodeDecodeAllGroups` | receptor.py:23 | the corrected decoder returns the payload of an intact encoding |
| `RoundTrip.EncodeFlipDecodeAllGroups` | receptor.py:23 | the corrected decoder undoes a single flip at any position of an encoding |
| `RoundTrip.SmallPayloadLost` | hammingCorrection.cpp:8-15 | the encoder as written, for 1 to 3 data bits: position 1 keeps `'P'` (rejected by `is_binary`), and fewer data bits than were sent survive |
| `RoundTrip.AllSizesEncodeDecode` | hammingCorrection.cpp:8-15 | the corrected encoder's output for any non-empty binary payload is binary and decodes back to it under both decoders |
| `Examples.LowPositions` | receptor.py:48 | among positions 1..9, the powers-of-two test picks 1, 2, 4 and 8 |
| `Examples.Encoded1011` | hammingCorrection.cpp:19-56 | 0110011 is an encoding of 1011 |
| `Examples.Encoding1011` | hammingCorrection.cpp:19-56 | `hammingEncode("1011")` can only be 0110011 |
| `Examples.Decoding1011WithError` | receptor.py:21-51 | 0110111 (position 5 flipped) is corrected at 5 and decodes to 1011 |
| `Examples.Encoding11111` | hammingCorrection.cpp:19-56 | 011111111 is an encoding of 11111 |
| `Examples.MissedError11111` | receptor.py:23 | 011111111 with position 9 flipped decodes to 11110 |
| `Examples.FixedDecoder11111` | receptor.py:23 | the corrected decoder restores 11111 from the same codeword |
| `Examples.Encoding101` | hammingCorrection.cpp:8-15 | `hammingEncode("101")` can only be PP1 |
| `Examples.FullEncoding101` | hammingCorrection.cpp:8-15 | the corrected encoder's output for 101 is 101101 |
| `Examples.Decoding101` | receptor.py:21-51 | 101101 decodes to 101 under both decoders |

## Left out

- The two `main` functions (receptor.py:77-98, hammingCorrection.cpp:58-68) and the diagnostic prints (receptor.py:38, 43) are left out: they are console input and output. The receiver's `main` computes the checksum of the same received message twice, so its comparison cannot fail; that flow is not modelled either.
- `stats.py` (CSV reading and plotting) is not modelled. None of the modelled files converts text to or from payload bits.
- `Receptor.CheckedGroups` is exact: `math.log2` is a double-precision function. For very long codewords, with n + 1 just below a power of two beyond about 2^48, `int(math.log2(n + 1))` can round up to that power's exponent; the model does not follow that rounding.
- `Hamming.CalculateParityBits` computes `std::pow(2, r)` and `2**r` exactly and uses unbounded integers, so the 32-bit `int` overflow of `m + r + 1` for payloads near 2^31 bits is not modelled.
- `Receptor.HammingDecode` requires a binary codeword. For other characters the source's `int(c)` raises `ValueError` or yields a non-bit value; neither path is modelled. Every caller in the source has already checked `is_binary`.
- `Receptor.FletcherChecksum` requires a binary message. Python's `int(block, 2)` raises `ValueError` on other characters, and also accepts signs, underscores and surrounding whitespace; none of this is modelled.
- `Receptor.FletcherChecksum` takes the block size as an argument: Python's default of 16 is not modelled.
- Only `'1'` counts as a one in the encoder and the decoder. This matches the encoder exactly, and the decoder on binary input; the XOR `^=` is written `(parity + v) % 2`, which agrees on bits.
- `hamming_decode` computes m = n - r (receptor.py:24) and never uses it. `Receptor.ComputedDataLength` shows that this m is the payload length only when n + 1 is a power of two, and one too high otherwise; the extraction does not depend on it.
- `calculate_parity_bits` (receptor.py:6-10) is never called on the receiving side. It has the same body as `calculateParityBits` and is modelled once, as `Hamming.CalculateParityBits`.
- `std::string` is a byte string, and the model's strings are sequences of characters. The encoder's `std::vector<char>` is a Dafny `array<char>`, and the string it returns is a copy of that array's contents.

## Findings

| source | as written | input that shows it | evidently intended | confidence | as-written member | corrected member |
|---|---|---|---|---|---|---|
| receptor.py:23 | The decoder checks floor(log2(n + 1)) groups. When n + 1 is not a power of two, this is one group fewer than the encoder wrote: group 2^(r-1) is never checked, so the syndrome can never name position n (a data position), or any position at or above 2^(r-1). | Data 11111 is encoded as 011111111 (n = 9). Flipping position 9 gives 011111110. That word is "corrected" at position 1 and decodes to 11110. | Check every parity position of 1..n (floor(log2 n) + 1 groups), so that any single error is corrected. A syndrome above n is reported as undecodable. | not executed | `RoundTrip.LastPositionErrorMissed`, `Examples.MissedError11111` | `Receptor.DecodeAllGroups`, `RoundTrip.EncodeFlipDecodeAllGroups`, `Examples.FixedDecoder11111` |
| hammingCorrection.cpp:8 | The search for the parity count stops at r < m. For 1 to 3 data bits it finds nothing and falls back to 0, so the codeword keeps `'P'` placeholders and drops data bits. | `hammingEncode("101")` returns PP1. The receiver rejects that as non-binary, and its single data position holds only the first data bit. | The least r with m + r + 1 <= 2^r for every m (2 for m = 1, 3 for m = 2 and 3), so 101 becomes 101101. | not executed | `RoundTrip.SmallPayloadLost`, `Examples.Encoding101` | `Hamming.LeastParityBits`, `HammingCorrection.HammingEncodeAllSizes`, `RoundTrip.AllSizesEncodeDecode` |

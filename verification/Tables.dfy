/** Sizes and capacities of symbols by version and error correction level. */
module Tables {
  import opened Arithmetic
  import opened Bitwise

  /** The levels in ascending order of protection: Low, Medium, Quartile, High. */
  type Ecc = e: int | 0 <= e <= 3

  type Version = v: int | 1 <= v <= 40 witness 1

  /** The entry of a row of ten. */
  function Pick(i: int, a: int, b: int, c: int, d: int, e: int, f: int, g: int, h: int, j: int, k: int): int {
    if i < 5 then (if i == 0 then a else if i == 1 then b else if i == 2 then c else if i == 3 then d else e)
    else (if i == 5 then f else if i == 6 then g else if i == 7 then h else if i == 8 then j else k)
  }

  /** Error correction codewords per block, level Low. */
  function EccLow(v: Version): int {
    if v <= 10 then Pick(v - 1, 7, 10, 15, 20, 26, 18, 20, 24, 30, 18)
    else if v <= 20 then Pick(v - 11, 20, 24, 26, 30, 22, 24, 28, 30, 28, 28)
    else if v <= 30 then Pick(v - 21, 28, 28, 30, 30, 26, 28, 30, 30, 30, 30)
    else Pick(v - 31, 30, 30, 30, 30, 30, 30, 30, 30, 30, 30)
  }

  /** Error correction codewords per block, level Medium. */
  function EccMedium(v: Version): int {
    if v <= 10 then Pick(v - 1, 10, 16, 26, 18, 24, 16, 18, 22, 22, 26)
    else if v <= 20 then Pick(v - 11, 30, 22, 22, 24, 24, 28, 28, 26, 26, 26)
    else if v <= 30 then Pick(v - 21, 26, 28, 28, 28, 28, 28, 28, 28, 28, 28)
    else Pick(v - 31, 28, 28, 28, 28, 28, 28, 28, 28, 28, 28)
  }

  /** Error correction codewords per block, level Quartile. */
  function EccQuartile(v: Version): int {
    if v <= 10 then Pick(v - 1, 13, 22, 18, 26, 18, 24, 18, 22, 20, 24)
    else if v <= 20 then Pick(v - 11, 28, 26, 24, 20, 30, 24, 28, 28, 26, 30)
    else if v <= 30 then Pick(v - 21, 28, 30, 30, 30, 30, 28, 30, 30, 30, 30)
    else Pick(v - 31, 30, 30, 30, 30, 30, 30, 30, 30, 30, 30)
  }

  /** Error correction codewords per block, level High. */
  function EccHigh(v: Version): int {
    if v <= 10 then Pick(v - 1, 17, 28, 22, 16, 22, 28, 26, 26, 24, 28)
    else if v <= 20 then Pick(v - 11, 24, 28, 22, 24, 24, 30, 28, 28, 26, 28)
    else if v <= 30 then Pick(v - 21, 30, 24, 30, 30, 30, 30, 30, 30, 30, 30)
    else Pick(v - 31, 30, 30, 30, 30, 30, 30, 30, 30, 30, 30)
  }

  /** Number of error correction blocks, level Low. */
  function BlocksLow(v: Version): int {
    if v <= 10 then Pick(v - 1, 1, 1, 1, 1, 1, 2, 2, 2, 2, 4)
    else if v <= 20 then Pick(v - 11, 4, 4, 4, 4, 6, 6, 6, 6, 7, 8)
    else if v <= 30 then Pick(v - 21, 8, 9, 9, 10, 12, 12, 12, 13, 14, 15)
    else Pick(v - 31, 16, 17, 18, 19, 19, 20, 21, 22, 24, 25)
  }

  /** Number of error correction blocks, level Medium. */
  function BlocksMedium(v: Version): int {
    if v <= 10 then Pick(v - 1, 1, 1, 1, 2, 2, 4, 4, 4, 5, 5)
    else if v <= 20 then Pick(v - 11, 5, 8, 9, 9, 10, 10, 11, 13, 14, 16)
    else if v <= 30 then Pick(v - 21, 17, 17, 18, 20, 21, 23, 25, 26, 28, 29)
    else Pick(v - 31, 31, 33, 35, 37, 38, 40, 43, 45, 47, 49)
  }

  /** Number of error correction blocks, level Quartile. */
  function BlocksQuartile(v: Version): int {
    if v <= 10 then Pick(v - 1, 1, 1, 2, 2, 4, 4, 6, 6, 8, 8)
    else if v <= 20 then Pick(v - 11, 8, 10, 12, 16, 12, 17, 16, 18, 21, 20)
    else if v <= 30 then Pick(v - 21, 23, 23, 25, 27, 29, 34, 34, 35, 38, 40)
    else Pick(v - 31, 43, 45, 48, 51, 53, 56, 59, 62, 65, 68)
  }

  /** Number of error correction blocks, level High. */
  function BlocksHigh(v: Version): int {
    if v <= 10 then Pick(v - 1, 1, 1, 2, 4, 4, 4, 5, 6, 8, 8)
    else if v <= 20 then Pick(v - 11, 11, 11, 16, 16, 18, 16, 19, 21, 25, 25)
    else if v <= 30 then Pick(v - 21, 25, 34, 30, 32, 35, 37, 40, 42, 45, 48)
    else Pick(v - 31, 51, 54, 57, 60, 63, 66, 70, 74, 77, 81)
  }

  function Side(v: Version): nat {
    4 * v + 17
  }

  function NumRawDataModules(v: Version): int {
    var numAlign := v / 7 + 2;
    (16 * v + 128) * v + 64
    - (if v >= 2 then (25 * numAlign - 10) * numAlign - 55 else 0)
    - (if v >= 7 then 36 else 0)
  }

  function EccLength(v: Version, ecl: Ecc): int {
    if ecl == 0 then EccLow(v)
    else if ecl == 1 then EccMedium(v)
    else if ecl == 2 then EccQuartile(v)
    else EccHigh(v)
  }

  function NumBlocks(v: Version, ecl: Ecc): int {
    if ecl == 0 then BlocksLow(v)
    else if ecl == 1 then BlocksMedium(v)
    else if ecl == 2 then BlocksQuartile(v)
    else BlocksHigh(v)
  }

  function RawCodewords(v: Version): int {
    NumRawDataModules(v) / 8
  }

  function NumDataCodewords(v: Version, ecl: Ecc): int {
    RawCodewords(v) - EccLength(v, ecl) * NumBlocks(v, ecl)
  }

  /** The share of erroneous codewords, in percent, that each level is documented to tolerate. */
  function Percent(ecl: Ecc): nat {
    if ecl == 0 then 7 else if ecl == 1 then 15 else if ecl == 2 then 25 else 30
  }

  /** The longest block of which half the error correction codewords are the documented share. */
  function LongestTolerant(ecc: nat, ecl: Ecc): nat {
    50 * ecc / Percent(ecl)
  }

  /** What the rest of the encoder, and the tolerance of errors, need of the tables. */
  predicate Fine(v: Version, ecl: Ecc) {
    var blocks, ecc, raw := NumBlocks(v, ecl), EccLength(v, ecl), RawCodewords(v);
    && 1 <= blocks && 1 <= ecc <= 30 && 0 <= raw
    && (ecc + 1) * blocks <= raw <= LongestTolerant(ecc, ecl) * blocks
  }

  // The rows of the tables, checked entry by entry.

  lemma Low10()
    ensures Fine(1, 0) && Fine(2, 0) && Fine(3, 0) && Fine(4, 0) && Fine(5, 0)
    ensures Fine(6, 0) && Fine(7, 0) && Fine(8, 0) && Fine(9, 0) && Fine(10, 0)
  {
  }

  lemma Low20()
    ensures Fine(11, 0) && Fine(12, 0) && Fine(13, 0) && Fine(14, 0) && Fine(15, 0)
    ensures Fine(16, 0) && Fine(17, 0) && Fine(18, 0) && Fine(19, 0) && Fine(20, 0)
  {
  }

  lemma Low30()
    ensures Fine(21, 0) && Fine(22, 0) && Fine(23, 0) && Fine(24, 0) && Fine(25, 0)
    ensures Fine(26, 0) && Fine(27, 0) && Fine(28, 0) && Fine(29, 0) && Fine(30, 0)
  {
  }

  lemma Low40()
    ensures Fine(31, 0) && Fine(32, 0) && Fine(33, 0) && Fine(34, 0) && Fine(35, 0)
    ensures Fine(36, 0) && Fine(37, 0) && Fine(38, 0) && Fine(39, 0) && Fine(40, 0)
  {
  }

  lemma Medium10()
    ensures Fine(1, 1) && Fine(2, 1) && Fine(3, 1) && Fine(4, 1) && Fine(5, 1)
    ensures Fine(6, 1) && Fine(7, 1) && Fine(8, 1) && Fine(9, 1) && Fine(10, 1)
  {
  }

  lemma Medium20()
    ensures Fine(11, 1) && Fine(12, 1) && Fine(13, 1) && Fine(14, 1) && Fine(15, 1)
    ensures Fine(16, 1) && Fine(17, 1) && Fine(18, 1) && Fine(19, 1) && Fine(20, 1)
  {
  }

  lemma Medium30()
    ensures Fine(21, 1) && Fine(22, 1) && Fine(23, 1) && Fine(24, 1) && Fine(25, 1)
    ensures Fine(26, 1) && Fine(27, 1) && Fine(28, 1) && Fine(29, 1) && Fine(30, 1)
  {
  }

  lemma Medium40()
    ensures Fine(31, 1) && Fine(32, 1) && Fine(33, 1) && Fine(34, 1) && Fine(35, 1)
    ensures Fine(36, 1) && Fine(37, 1) && Fine(38, 1) && Fine(39, 1) && Fine(40, 1)
  {
  }

  lemma Quartile10()
    ensures Fine(1, 2) && Fine(2, 2) && Fine(3, 2) && Fine(4, 2) && Fine(5, 2)
    ensures Fine(6, 2) && Fine(7, 2) && Fine(8, 2) && Fine(9, 2) && Fine(10, 2)
  {
  }

  lemma Quartile20()
    ensures Fine(11, 2) && Fine(12, 2) && Fine(13, 2) && Fine(14, 2) && Fine(15, 2)
    ensures Fine(16, 2) && Fine(17, 2) && Fine(18, 2) && Fine(19, 2) && Fine(20, 2)
  {
  }

  lemma Quartile30()
    ensures Fine(21, 2) && Fine(22, 2) && Fine(23, 2) && Fine(24, 2) && Fine(25, 2)
    ensures Fine(26, 2) && Fine(27, 2) && Fine(28, 2) && Fine(29, 2) && Fine(30, 2)
  {
  }

  lemma Quartile40()
    ensures Fine(31, 2) && Fine(32, 2) && Fine(33, 2) && Fine(34, 2) && Fine(35, 2)
    ensures Fine(36, 2) && Fine(37, 2) && Fine(38, 2) && Fine(39, 2) && Fine(40, 2)
  {
  }

  lemma High10()
    ensures Fine(1, 3) && Fine(2, 3) && Fine(3, 3) && Fine(4, 3) && Fine(5, 3)
    ensures Fine(6, 3) && Fine(7, 3) && Fine(8, 3) && Fine(9, 3) && Fine(10, 3)
  {
  }

  lemma High20()
    ensures Fine(11, 3) && Fine(12, 3) && Fine(13, 3) && Fine(14, 3) && Fine(15, 3)
    ensures Fine(16, 3) && Fine(17, 3) && Fine(18, 3) && Fine(19, 3) && Fine(20, 3)
  {
  }

  lemma High30()
    ensures Fine(21, 3) && Fine(22, 3) && Fine(23, 3) && Fine(24, 3) && Fine(25, 3)
    ensures Fine(26, 3) && Fine(27, 3) && Fine(28, 3) && Fine(29, 3) && Fine(30, 3)
  {
  }

  lemma High40()
    ensures Fine(31, 3) && Fine(32, 3) && Fine(33, 3) && Fine(34, 3) && Fine(35, 3)
    ensures Fine(36, 3) && Fine(37, 3) && Fine(38, 3) && Fine(39, 3) && Fine(40, 3)
  {
  }

  lemma LowFine(v: Version)
    ensures Fine(v, 0)
  {
    hide *;
    if v <= 10 { Low10(); } else if v <= 20 { Low20(); } else if v <= 30 { Low30(); } else { Low40(); }
  }

  lemma MediumFine(v: Version)
    ensures Fine(v, 1)
  {
    hide *;
    if v <= 10 { Medium10(); } else if v <= 20 { Medium20(); } else if v <= 30 { Medium30(); } else { Medium40(); }
  }

  lemma QuartileFine(v: Version)
    ensures Fine(v, 2)
  {
    hide *;
    if v <= 10 { Quartile10(); } else if v <= 20 { Quartile20(); }
    else if v <= 30 { Quartile30(); } else { Quartile40(); }
  }

  lemma HighFine(v: Version)
    ensures Fine(v, 3)
  {
    hide *;
    if v <= 10 { High10(); } else if v <= 20 { High20(); } else if v <= 30 { High30(); } else { High40(); }
  }

  lemma AllFine(v: Version, ecl: Ecc)
    ensures Fine(v, ecl)
  {
    hide *;
    if ecl == 0 { LowFine(v); } else if ecl == 1 { MediumFine(v); }
    else if ecl == 2 { QuartileFine(v); } else { HighFine(v); }
  }

  /** Every block has data and its error correction, and fits the 255 places of the field. */
  lemma BlockSizes(v: Version, ecl: Ecc)
    ensures 1 <= NumBlocks(v, ecl) && 1 <= EccLength(v, ecl) <= 30
    ensures EccLength(v, ecl) < RawCodewords(v) / NumBlocks(v, ecl) < 255
    ensures 0 < NumDataCodewords(v, ecl) < RawCodewords(v)
  {
    hide NumBlocks, EccLength, RawCodewords, NumRawDataModules;
    AllFine(v, ecl);
    hide Fine, LongestTolerant;
    FineBounds(v, ecl);
    var blocks, ecc, raw := NumBlocks(v, ecl), EccLength(v, ecl), RawCodewords(v);
    MulMonotone(LongestTolerant(ecc, ecl), 254, blocks);
    DivisionBounds(raw, blocks, ecc + 1, 255);
    assert ecc * blocks < raw by { NextMultiple(ecc, blocks); }
    MulMonotone(1, ecc, blocks);
  }

  lemma FineBounds(v: Version, ecl: Ecc)
    requires Fine(v, ecl)
    ensures var blocks, ecc, raw := NumBlocks(v, ecl), EccLength(v, ecl), RawCodewords(v);
            && 1 <= blocks && 1 <= ecc <= 30 && 0 <= raw && LongestTolerant(ecc, ecl) <= 254
            && (ecc + 1) * blocks <= raw <= LongestTolerant(ecc, ecl) * blocks
  {
    hide NumBlocks, EccLength, RawCodewords;
  }

  /**
   Every block is short enough: half its error correction codewords are at least the documented
   share of its codewords. A block has at most one codeword more than the quotient.
   */
  lemma ToleratedShare(v: Version, ecl: Ecc, length: nat)
    requires NumBlocks(v, ecl) >= 1
    requires length <= RawCodewords(v) / NumBlocks(v, ecl) + Weight(RawCodewords(v) % NumBlocks(v, ecl) > 0)
    ensures 50 * EccLength(v, ecl) >= Percent(ecl) * length
  {
    hide NumBlocks, EccLength, RawCodewords, NumRawDataModules, Fine, LongestTolerant;
    AllFine(v, ecl);
    FineBounds(v, ecl);
    var longest := LongestTolerant(EccLength(v, ecl), ecl);
    CeilingBound(RawCodewords(v), NumBlocks(v, ecl), longest);
    ShareOf(EccLength(v, ecl), ecl, length);
  }

  lemma CeilingBound(a: nat, b: nat, longest: nat)
    requires b > 0 && a <= longest * b
    ensures a / b + Weight(a % b > 0) <= longest
  {
    var q := a / b;
    assert a == q * b + a % b;
    if q > longest { MulMonotone(longest + 1, q, b); }
    if q == longest { assert a % b == 0; }
  }

  lemma ShareOf(ecc: nat, ecl: Ecc, length: nat)
    requires length <= LongestTolerant(ecc, ecl)
    ensures 50 * ecc >= Percent(ecl) * length
  {
  }

  /** The bounds that the source asserts: the alignment patterns never outgrow the square. */
  lemma RawDataModulesBounded(v: Version)
    ensures 208 <= NumRawDataModules(v) <= 29648
  {
    var k := v / 7 + 2;
    assert 7 * (k - 2) <= v < 7 * (k - 1);
    MulMonotone(16 * v + 128, 16 * 40 + 128, v);
    if k == 2 {
    } else if k == 3 {
    } else if k == 4 {
    } else if k == 5 {
    } else if k == 6 {
    } else {
      assert k == 7;
    }
  }

  lemma DivisionBounds(a: nat, b: nat, lo: nat, hi: nat)
    requires b > 0 && lo * b <= a < hi * b
    ensures lo <= a / b < hi
  {
    var q := a / b;
    if q < lo { MulMonotone(q + 1, lo, b); }
    if q >= hi { MulMonotone(hi, q, b); }
  }
}

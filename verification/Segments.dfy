/** Segments of data: their packing into bits, their lengths, and the way back. */
module Segments {
  import opened Bitwise
  import opened BitStream

  const INT16_MAX := 32767

  datatype Mode = Numeric | Alphanumeric | Byte | Kanji | Eci

  /** The mode indicator. */
  function Indicator(mode: Mode): (m: nat)
    ensures 0 < m < 16
  {
    match mode
    case Numeric => 1
    case Alphanumeric => 2
    case Byte => 4
    case Kanji => 8
    case Eci => 7
  }

  // ----- Packing codes in groups

  /** Codes below `base` are packed up to `group` at a time; k codes take widths[k] bits. */
  datatype Packing = Packing(base: nat, group: nat, widths: seq<nat>)

  const DIGITS := Packing(10, 3, [0, 4, 7, 10])

  const CHARACTERS := Packing(45, 2, [0, 6, 11])

  predicate IsPacking(p: Packing) {
    p == DIGITS || p == CHARACTERS
  }

  predicate AllBelow(base: nat, codes: seq<nat>) {
    forall i | 0 <= i < |codes| :: codes[i] < base
  }

  /** The number that a group of codes stands for. */
  function GroupValue(base: nat, codes: seq<nat>): nat {
    if codes == [] then 0 else GroupValue(base, codes[..|codes| - 1]) * base + codes[|codes| - 1]
  }

  /** The codes that a number stands for. */
  function GroupCodes(base: nat, v: nat, k: nat): (c: seq<nat>)
    requires base == 10 || base == 45
    ensures |c| == k
    decreases k
  {
    if k == 0 then [] else GroupCodes(base, v / base, k - 1) + [v % base]
  }

  lemma {:induction false} GroupRoundTrip(base: nat, codes: seq<nat>)
    requires (base == 10 || base == 45) && AllBelow(base, codes)
    ensures GroupCodes(base, GroupValue(base, codes), |codes|) == codes
  {
    if codes != [] {
      var k := |codes| - 1;
      var v, c := GroupValue(base, codes[..k]), codes[k];
      GroupRoundTrip(base, codes[..k]);
      DivideBack(v, base, c);
    }
  }

  lemma DivideBack(v: nat, base: nat, c: nat)
    requires (base == 10 || base == 45) && c < base
    ensures (v * base + c) / base == v && (v * base + c) % base == c
  {
    if base == 10 {
    } else {
    }
  }

  lemma GroupUnfold(b: nat, codes: seq<nat>)
    ensures |codes| == 0 ==> GroupValue(b, codes) == 0
    ensures |codes| == 1 ==> GroupValue(b, codes) == codes[0]
    ensures |codes| == 2 ==> GroupValue(b, codes) == codes[0] * b + codes[1]
    ensures |codes| == 3 ==> GroupValue(b, codes) == (codes[0] * b + codes[1]) * b + codes[2]
  {
    if |codes| == 1 {
      assert codes[..0] == [];
    } else if |codes| == 2 {
      GroupUnfold(b, codes[..1]);
    } else if |codes| == 3 {
      GroupUnfold(b, codes[..2]);
    }
  }

  lemma GroupFits(p: Packing, codes: seq<nat>)
    requires IsPacking(p) && |codes| <= p.group && AllBelow(p.base, codes)
    ensures GroupValue(p.base, codes) < Pow2(p.widths[|codes|])
  {
    hide GroupValue;
    assert Pow2(4) == 16 && Pow2(6) == 64 && Pow2(7) == 128 && Pow2(10) == 1024 && Pow2(11) == 2048;
    GroupUnfold(p.base, codes);
  }

  /** The bits of a sequence of codes, group by group. */
  function PackedBits(p: Packing, codes: seq<nat>): Bits
    requires IsPacking(p)
  {
    if |codes| > p.group then
      BitsOf(GroupValue(p.base, codes[..p.group]), p.widths[p.group]) + PackedBits(p, codes[p.group..])
    else BitsOf(GroupValue(p.base, codes), p.widths[|codes|])
  }

  /** Read the given number of codes from the front of the bits; missing bits count as no codes. */
  function UnpackedCodes(p: Packing, bits: Bits, count: nat): seq<nat>
    requires IsPacking(p)
    decreases count
  {
    if count > p.group then
      var w := p.widths[p.group];
      if |bits| < w then []
      else GroupCodes(p.base, ValueOf(bits[..w]), p.group) + UnpackedCodes(p, bits[w..], count - p.group)
    else
      var w := p.widths[count];
      if |bits| < w then [] else GroupCodes(p.base, ValueOf(bits[..w]), count)
  }

  /** Unpacking with the stored count returns the codes, whatever follows them. */
  lemma {:induction false} UnpackPacked(p: Packing, codes: seq<nat>, rest: Bits)
    requires IsPacking(p) && AllBelow(p.base, codes)
    ensures UnpackedCodes(p, PackedBits(p, codes) + rest, |codes|) == codes
    decreases |codes|
  {
    hide BitsOf, GroupValue, GroupCodes, Pow2, ValueOf;
    if |codes| > p.group {
      var head, tail, w := codes[..p.group], codes[p.group..], p.widths[p.group];
      var first := BitsOf(GroupValue(p.base, head), w);
      UnpackPacked(p, tail, rest);
      GroupFits(p, head);
      ValueOfBits(GroupValue(p.base, head), w);
      GroupRoundTrip(p.base, head);
      var all := PackedBits(p, codes) + rest;
      assert all == first + (PackedBits(p, tail) + rest);
      assert all[..w] == first && all[w..] == PackedBits(p, tail) + rest;
    } else {
      var w := p.widths[|codes|];
      GroupFits(p, codes);
      ValueOfBits(GroupValue(p.base, codes), w);
      GroupRoundTrip(p.base, codes);
      assert (PackedBits(p, codes) + rest)[..w] == PackedBits(p, codes);
    }
  }

  /** The number of bits for the given number of characters; ECI is the worst case. */
  function PayloadLength(mode: Mode, count: nat): nat {
    match mode
    case Numeric => (count * 10 + 2) / 3
    case Alphanumeric => (count * 11 + 1) / 2
    case Byte => count * 8
    case Kanji => count * 13
    case Eci => 24
  }

  lemma {:induction false} PackedLength(p: Packing, codes: seq<nat>)
    requires IsPacking(p)
    ensures |PackedBits(p, codes)| == PayloadLength(if p == DIGITS then Numeric else Alphanumeric, |codes|)
    decreases |codes|
  {
    hide BitsOf, GroupValue;
    if |codes| > p.group { PackedLength(p, codes[p.group..]); }
  }

  /** Appending a whole group appends its bits. */
  lemma {:induction false} PackedAppend(p: Packing, codes: seq<nat>, more: seq<nat>)
    requires IsPacking(p) && |codes| % p.group == 0 && 0 < |more| <= p.group
    ensures PackedBits(p, codes + more)
         == (if codes == [] then [] else PackedBits(p, codes)) + BitsOf(GroupValue(p.base, more), p.widths[|more|])
    decreases |codes|
  {
    hide BitsOf, GroupValue;
    if codes == [] {
      assert codes + more == more;
    } else {
      var g := p.group;
      assert (codes + more)[..g] == codes[..g];
      assert (codes + more)[g..] == codes[g..] + more;
      PackedAppend(p, codes[g..], more);
      if |codes| == g { assert codes[..g] == codes; }
    }
  }

  // ----- Characters

  /** The characters of alphanumeric mode, each in the place of its code. */
  function Charset(): (s: string)
    ensures |s| == 45
  {
    "0123456789" + "ABCDEFGHIJKLMNOPQRSTUVWXYZ" + " $%*+-./:"
  }

  /** The first place of a character in a string, or the string's length. */
  function FirstIndex(s: string, c: char): (i: nat)
    ensures i <= |s|
    ensures i < |s| ==> s[i] == c
    ensures i == |s| ==> c !in s
  {
    if s == [] || s[0] == c then 0 else 1 + FirstIndex(s[1..], c)
  }

  function CharIndex(c: char): (i: nat)
    ensures i <= |Charset()|
    ensures i < |Charset()| <==> c in Charset()
    ensures i < |Charset()| ==> Charset()[i] == c
  {
    FirstIndex(Charset(), c)
  }

  /** The character that stands for each code: digits, capital letters, then nine others. */
  function CharacterOf(code: nat): char
    requires code < 45
  {
    if code < 10 then '0' + code as char
    else if code < 36 then 'A' + (code - 10) as char
    else match code
      case 36 => ' '
      case 37 => '$'
      case 38 => '%'
      case 39 => '*'
      case 40 => '+'
      case 41 => '-'
      case 42 => '.'
      case 43 => '/'
      case 44 => ':'
  }

  lemma CharsetDigits(code: nat)
    requires code < 10
    ensures Charset()[code] == CharacterOf(code)
  {
    assert code in {0, 1, 2, 3, 4, 5, 6, 7, 8, 9};
  }

  lemma CharsetAToM(code: nat)
    requires 10 <= code < 23
    ensures Charset()[code] == CharacterOf(code)
  {
    assert code in {10, 11, 12, 13, 14, 15, 16, 17, 18, 19, 20, 21, 22};
  }

  lemma CharsetNToZ(code: nat)
    requires 23 <= code < 36
    ensures Charset()[code] == CharacterOf(code)
  {
    assert code in {23, 24, 25, 26, 27, 28, 29, 30, 31, 32, 33, 34, 35};
  }

  lemma CharsetOthers(code: nat)
    requires 36 <= code < 45
    ensures Charset()[code] == CharacterOf(code)
  {
  }

  lemma CharsetIs(code: nat)
    requires code < 45
    ensures |Charset()| == 45 && Charset()[code] == CharacterOf(code)
  {
    hide CharacterOf;
    if code < 10 { CharsetDigits(code); } else if code < 23 { CharsetAToM(code); }
    else if code < 36 { CharsetNToZ(code); } else { CharsetOthers(code); }
  }

  lemma LetterCodes(code: nat)
    requires code < 36
    ensures CharacterOf(code) as int == if code < 10 then '0' as int + code else 'A' as int + (code - 10)
  {
  }

  lemma OtherCodes(code: nat)
    requires 36 <= code < 45
    ensures CharacterOf(code) as int
         == if code == 36 then 32 else if code < 39 then code - 1 else if code < 41 then code + 3
            else if code < 44 then code + 4 else 58
  {
  }

  lemma CharacterOfInjective(a: nat, b: nat)
    requires a < 45 && b < 45 && CharacterOf(a) == CharacterOf(b)
    ensures a == b
  {
    hide CharacterOf;
    assert '0' as int == 48 && 'A' as int == 65;
    if a < 36 { LetterCodes(a); } else { OtherCodes(a); }
    if b < 36 { LetterCodes(b); } else { OtherCodes(b); }
  }

  lemma CodeOf(code: nat)
    requires code < 45
    ensures CharIndex(CharacterOf(code)) == code
  {
    hide CharIndex, Charset, CharacterOf;
    var c := CharacterOf(code);
    CharsetIs(code);
    assert c in Charset();
    CharsetIs(CharIndex(c));
    CharacterOfInjective(CharIndex(c), code);
  }

  /** The codes: 0 to 9 for digits, 10 to 35 for capital letters, and 36 to 44 in the documented order. */
  lemma CharacterCodesAre(c: char)
    ensures '0' <= c <= '9' ==> CharIndex(c) == c as int - '0' as int
    ensures 'A' <= c <= 'Z' ==> CharIndex(c) == c as int - 'A' as int + 10
    ensures CharIndex(' ') == 36 && CharIndex('$') == 37 && CharIndex('%') == 38 && CharIndex('*') == 39
    ensures CharIndex('+') == 40 && CharIndex('-') == 41 && CharIndex('.') == 42 && CharIndex('/') == 43
    ensures CharIndex(':') == 44
  {
    hide CharIndex, Charset, CharacterOf;
    if '0' <= c <= '9' { DigitCode(c); }
    if 'A' <= c <= 'Z' { LetterCode(c); }
    OtherCharacters();
    CodeOf(36); CodeOf(37); CodeOf(38); CodeOf(39); CodeOf(40); CodeOf(41); CodeOf(42); CodeOf(43); CodeOf(44);
  }

  lemma DigitCode(c: char)
    requires '0' <= c <= '9'
    ensures CharIndex(c) == c as int - '0' as int
  {
    hide CharIndex, Charset;
    var code: nat := c as int - '0' as int;
    assert code < 10 && CharacterOf(code) == c;
    CodeOf(code);
  }

  lemma LetterCode(c: char)
    requires 'A' <= c <= 'Z'
    ensures CharIndex(c) == c as int - 'A' as int + 10
  {
    hide CharIndex, Charset;
    var code: nat := c as int - 'A' as int + 10;
    assert 10 <= code < 36 && CharacterOf(code) == c;
    CodeOf(code);
  }

  lemma OtherCharacters()
    ensures CharacterOf(36) == ' ' && CharacterOf(37) == '$' && CharacterOf(38) == '%' && CharacterOf(39) == '*'
    ensures CharacterOf(40) == '+' && CharacterOf(41) == '-' && CharacterOf(42) == '.' && CharacterOf(43) == '/'
    ensures CharacterOf(44) == ':'
  {
  }

  predicate IsDigit(c: char) {
    '0' <= c <= '9'
  }

  predicate AllDigits(text: string) {
    forall i | 0 <= i < |text| :: IsDigit(text[i])
  }

  predicate AllCharacters(text: string) {
    forall i | 0 <= i < |text| :: text[i] in Charset()
  }

  function DigitCodes(text: string): (codes: seq<nat>)
    requires AllDigits(text)
    ensures |codes| == |text| && AllBelow(10, codes)
  {
    seq(|text|, i requires 0 <= i < |text| => text[i] as int - '0' as int)
  }

  function CharacterCodes(text: string): (codes: seq<nat>)
    requires AllCharacters(text)
    ensures |codes| == |text| && AllBelow(45, codes)
  {
    seq(|text|, i requires 0 <= i < |text| => CharIndex(text[i]))
  }

  function DigitText(codes: seq<nat>): string
    requires AllBelow(10, codes)
  {
    seq(|codes|, i requires 0 <= i < |codes| => '0' + codes[i] as char)
  }

  function CharacterText(codes: seq<nat>): string
    requires AllBelow(45, codes)
  {
    seq(|codes|, i requires 0 <= i < |codes| => Charset()[codes[i]])
  }

  lemma DigitTextCodes(text: string)
    requires AllDigits(text)
    ensures DigitText(DigitCodes(text)) == text
  {
  }

  lemma CharacterTextCodes(text: string)
    requires AllCharacters(text)
    ensures CharacterText(CharacterCodes(text)) == text
  {
    hide CharIndex, Charset;
  }

  method IsNumeric(text: string) returns (r: bool)
    ensures r == AllDigits(text)
  {
    for i := 0 to |text|
      invariant AllDigits(text[..i])
    {
      if text[i] < '0' || text[i] > '9' { return false; }
    }
    assert text[..|text|] == text;
    return true;
  }

  method IsAlphanumeric(text: string) returns (r: bool)
    ensures r == AllCharacters(text)
  {
    hide CharIndex, Charset;
    for i := 0 to |text|
      invariant AllCharacters(text[..i])
    {
      if CharIndex(text[i]) == |Charset()| { return false; }
    }
    assert text[..|text|] == text;
    return true;
  }

  // ----- Lengths

  /** The length of a segment's data in bits, or -1 if it is not representable. */
  method CalcSegmentBitLength(mode: Mode, numChars: nat) returns (r: int)
    requires mode == Eci && numChars <= INT16_MAX ==> numChars == 0
    ensures r == SegmentBitLength(mode, numChars)
  {
    if numChars > INT16_MAX { return -1; }
    var result := numChars;
    if mode == Numeric {
      result := (result * 10 + 2) / 3;
    } else if mode == Alphanumeric {
      result := (result * 11 + 1) / 2;
    } else if mode == Byte {
      result := result * 8;
    } else if mode == Kanji {
      result := result * 13;
    } else {
      result := 3 * 8;
    }
    if result > INT16_MAX { return -1; }
    return result;
  }

  function SegmentBitLength(mode: Mode, numChars: nat): int {
    if numChars > INT16_MAX || PayloadLength(mode, numChars) > INT16_MAX then -1 else PayloadLength(mode, numChars)
  }

  const SIZE_MAX := 0xFFFF_FFFF_FFFF_FFFF

  method CalcSegmentBufferSize(mode: Mode, numChars: nat) returns (size: nat)
    requires mode == Eci && numChars <= INT16_MAX ==> numChars == 0
    ensures SegmentBitLength(mode, numChars) == -1 ==> size == SIZE_MAX
    ensures SegmentBitLength(mode, numChars) >= 0 ==>
              8 * (size - 1) < SegmentBitLength(mode, numChars) <= 8 * size && size <= 4096
  {
    var temp := CalcSegmentBitLength(mode, numChars);
    if temp == -1 { return SIZE_MAX; }
    return (temp + 7) / 8;
  }

  // ----- Makers

  /** A segment: its data lies in a buffer from a starting byte on; there need be none for no bits. */
  datatype Segment = Segment(mode: Mode, numChars: int, data: array?<byte>, start: nat, bitLength: int)

  predicate Readable(seg: Segment) {
    && 0 <= seg.numChars <= INT16_MAX && 0 <= seg.bitLength <= INT16_MAX
    && (seg.bitLength > 0 ==> seg.data != null && seg.start * 8 + seg.bitLength <= 8 * seg.data.Length)
  }

  /** The data bits of a segment. */
  function SegmentData(seg: Segment): (s: Bits)
    requires Readable(seg)
    reads if seg.data == null then {} else {seg.data}
    ensures |s| == seg.bitLength
  {
    if seg.bitLength == 0 then [] else Stream(seg.data[seg.start..], seg.bitLength)
  }

  /** The bits of the whole groups among the first m codes. */
  function Emitted(p: Packing, codes: seq<nat>, m: nat): Bits
    requires IsPacking(p) && m <= |codes|
  {
    if m == 0 then [] else PackedBits(p, codes[..m])
  }

  lemma GroupInWidth(p: Packing, more: seq<nat>)
    requires IsPacking(p) && AllBelow(p.base, more) && 0 < |more| <= p.group
    ensures Shr(GroupValue(p.base, more), p.widths[|more|]) == 0 && p.widths[|more|] <= 16
  {
    hide GroupValue, Shr;
    GroupFits(p, more);
    ShrBounded(GroupValue(p.base, more), p.widths[|more|], 0);
  }

  lemma EmittedNext(p: Packing, codes: seq<nat>, m: nat, k: nat)
    requires IsPacking(p) && AllBelow(p.base, codes) && m % p.group == 0 && 0 < k <= p.group && m + k <= |codes|
    ensures Emitted(p, codes, m) + BitsOf(GroupValue(p.base, codes[m..m + k]), p.widths[k]) == Emitted(p, codes, m + k)
    ensures |Emitted(p, codes, m)| + p.widths[k] <= |PackedBits(p, codes)|
  {
    hide BitsOf, GroupValue, PackedBits, AllBelow;
    GroupsJoin(p, codes, m, k);
    PackedPrefix(p, codes, m + k);
  }

  lemma GroupsJoin(p: Packing, codes: seq<nat>, m: nat, k: nat)
    requires IsPacking(p) && m % p.group == 0 && 0 < k <= p.group && m + k <= |codes|
    ensures PackedBits(p, codes[..m + k])
         == (if m == 0 then [] else PackedBits(p, codes[..m]))
            + BitsOf(GroupValue(p.base, codes[m..m + k]), p.widths[k])
  {
    hide BitsOf, GroupValue, PackedBits;
    assert codes[..m] + codes[m..m + k] == codes[..m + k];
    PackedAppend(p, codes[..m], codes[m..m + k]);
  }

  lemma PackedPrefix(p: Packing, codes: seq<nat>, m: nat)
    requires IsPacking(p) && m <= |codes|
    ensures |PackedBits(p, codes[..m])| <= |PackedBits(p, codes)|
  {
    hide PackedBits;
    PackedLength(p, codes[..m]);
    PackedLength(p, codes);
  }

  lemma EmittedAll(p: Packing, codes: seq<nat>)
    requires IsPacking(p)
    ensures Emitted(p, codes, |codes|) == PackedBits(p, codes)
    ensures Emitted(p, codes, 0) == []
  {
    assert codes[..|codes|] == codes;
    if codes == [] {
      assert PackedBits(p, codes) == BitsOf(0, 0);
    }
  }

  lemma GroupAppend(base: nat, codes: seq<nat>, m: nat, i: nat)
    requires m <= i < |codes|
    ensures GroupValue(base, codes[m..i + 1]) == GroupValue(base, codes[m..i]) * base + codes[i]
  {
    assert codes[m..i + 1][..i - m] == codes[m..i];
  }

  lemma GroupEmpty(base: nat, codes: seq<nat>, i: nat)
    requires i <= |codes|
    ensures GroupValue(base, codes[i..i]) == 0
  {
  }

  /** A full buffer read back as segment data. */
  lemma StreamOfFull(buf: seq<byte>, s: Bits, limit: nat)
    requires Holds(buf, s, limit) && |s| == limit
    ensures Stream(buf[0..], limit) == s
  {
    assert buf[0..] == buf;
    assert s + Zeros(0) == s;
  }

  /** The accumulator holds the codes read since the last whole group. */
  ghost predicate Accumulated(p: Packing, codes: seq<nat>, i: nat, accumData: nat, accumCount: nat) {
    && IsPacking(p) && i <= |codes| && accumCount == i % p.group
    && accumData == GroupValue(p.base, codes[i - accumCount..i])
  }

  /** The buffer holds the bits of the first m codes, in whole groups. */
  ghost predicate Packed(p: Packing, codes: seq<nat>, m: nat, buf: seq<byte>, bitLength: nat, limit: nat) {
    && IsPacking(p) && AllBelow(p.base, codes) && m <= |codes| && limit == |PackedBits(p, codes)|
    && bitLength == |Emitted(p, codes, m)| && Holds(buf, Emitted(p, codes, m), limit)
  }

  lemma AccumulatedNext(p: Packing, codes: seq<nat>, i: nat, accumData: nat, accumCount: nat)
    requires Accumulated(p, codes, i, accumData, accumCount) && i < |codes|
    ensures accumCount < p.group && accumCount <= i && (i - accumCount) % p.group == 0
    ensures accumCount + 1 < p.group ==> Accumulated(p, codes, i + 1, accumData * p.base + codes[i], accumCount + 1)
    ensures accumCount + 1 == p.group ==> Accumulated(p, codes, i + 1, 0, 0)
    ensures accumData * p.base + codes[i] == GroupValue(p.base, codes[i - accumCount..i + 1])
  {
    hide GroupValue;
    GroupAppend(p.base, codes, i - accumCount, i);
    GroupEmpty(p.base, codes, i + 1);
    GroupSteps(i, p.group);
  }

  lemma GroupSteps(i: nat, group: nat)
    requires group == 2 || group == 3
    ensures i % group <= i && (i - i % group) % group == 0
    ensures (i + 1) % group == if i % group + 1 == group then 0 else i % group + 1
  {
    if group == 2 { StepsOf2(i); } else { StepsOf3(i); }
  }

  lemma StepsOf2(i: nat)
    ensures i % 2 <= i && (i - i % 2) % 2 == 0
    ensures (i + 1) % 2 == if i % 2 + 1 == 2 then 0 else i % 2 + 1
  {
  }

  lemma StepsOf3(i: nat)
    ensures i % 3 <= i && (i - i % 3) % 3 == 0
    ensures (i + 1) % 3 == if i % 3 + 1 == 3 then 0 else i % 3 + 1
  {
  }

  lemma PackingStart(p: Packing, codes: seq<nat>, buf: seq<byte>, limit: nat)
    requires IsPacking(p) && AllBelow(p.base, codes) && limit == |PackedBits(p, codes)| && Holds(buf, [], limit)
    ensures Accumulated(p, codes, 0, 0, 0) && Packed(p, codes, 0, buf, 0, limit)
  {
    GroupEmpty(p.base, codes, 0);
  }

  lemma PackingEnd(p: Packing, codes: seq<nat>, buf: seq<byte>, bitLength: nat, limit: nat)
    requires Packed(p, codes, |codes|, buf, bitLength, limit)
    ensures bitLength == limit <= 8 * |buf| && Stream(buf[0..], limit) == PackedBits(p, codes)
  {
    hide PackedBits, Holds, Emitted;
    EmittedAll(p, codes);
    StreamOfFull(buf, PackedBits(p, codes), limit);
    HoldsBound(buf, PackedBits(p, codes), limit);
  }

  /** Append the group of k codes at m: a whole one, or the last. */
  method AppendGroup(accumData: nat, numBits: nat, buf: array<byte>, bitLength: nat,
                     ghost p: Packing, ghost codes: seq<nat>, ghost m: nat, ghost k: nat, ghost limit: nat)
    returns (newLen: nat)
    requires Packed(p, codes, m, buf[..], bitLength, limit)
    requires m % p.group == 0 && 0 < k <= p.group && m + k <= |codes| && (k < p.group ==> m + k == |codes|)
    requires accumData == GroupValue(p.base, codes[m..m + k]) && numBits == p.widths[k]
    modifies buf
    ensures Packed(p, codes, m + k, buf[..], newLen, limit)
  {
    hide PackedBits, Holds, Emitted, BitsOf, GroupValue, Shr;
    EmittedNext(p, codes, m, k);
    GroupInWidth(p, codes[m..m + k]);
    newLen := AppendBitsToBuffer(accumData, numBits, buf, bitLength, Emitted(p, codes, m), limit);
  }

  /** Clear the space for the given number of characters. */
  method ClearBuffer(mode: Mode, numChars: nat, buf: array<byte>, ghost p: Packing, ghost codes: seq<nat>)
    returns (bitLen: nat)
    requires IsPacking(p) && AllBelow(p.base, codes) && numChars == |codes|
    requires mode == if p == DIGITS then Numeric else Alphanumeric
    requires 0 <= SegmentBitLength(mode, numChars) <= 8 * buf.Length
    modifies buf
    ensures bitLen == SegmentBitLength(mode, numChars)
    ensures Accumulated(p, codes, 0, 0, 0) && Packed(p, codes, 0, buf[..], 0, bitLen)
  {
    hide PackedBits, Holds, Packed, Accumulated;
    PackedLength(p, codes);
    bitLen := CalcSegmentBitLength(mode, numChars);
    forall k | 0 <= k < (bitLen + 7) / 8 { buf[k] := 0; }
    ClearedHolds(buf[..], bitLen);
    PackingStart(p, codes, buf[..], bitLen);
  }

  lemma LengthBounds(mode: Mode, numChars: nat)
    ensures SegmentBitLength(mode, numChars) != -1 ==>
              numChars <= INT16_MAX && 0 <= SegmentBitLength(mode, numChars) <= INT16_MAX
  {
  }

  method MakeNumeric(digits: string, buf: array<byte>) returns (seg: Segment)
    requires AllDigits(digits) && SegmentBitLength(Numeric, |digits|) != -1
    requires SegmentBitLength(Numeric, |digits|) <= 8 * buf.Length
    modifies buf
    ensures seg == Segment(Numeric, |digits|, buf, 0, SegmentBitLength(Numeric, |digits|))
    ensures Readable(seg) && SegmentData(seg) == PackedBits(DIGITS, DigitCodes(digits))
  {
    hide PackedBits, Holds, Packed, Accumulated, GroupValue, DigitCodes, AllDigits, SegmentBitLength;
    LengthBounds(Numeric, |digits|);
    ghost var codes := DigitCodes(digits);
    var bitLen := ClearBuffer(Numeric, |digits|, buf, DIGITS, codes);
    var bitLength: nat, accumData: nat, accumCount: nat := 0, 0, 0;
    for i := 0 to |digits|
      invariant accumCount <= 2 && accumCount <= i
      invariant Accumulated(DIGITS, codes, i, accumData, accumCount)
      invariant Packed(DIGITS, codes, i - accumCount, buf[..], bitLength, bitLen)
    {
      DigitNext(digits, i, accumData, accumCount);
      accumData := accumData * 10 + (digits[i] as int - '0' as int);
      accumCount := accumCount + 1;
      if accumCount == 3 {
        bitLength := AppendGroup(accumData, 10, buf, bitLength, DIGITS, codes, i - 2, 3, bitLen);
        accumData, accumCount := 0, 0;
      }
    }
    AccumulatedValue(DIGITS, codes, accumData, accumCount);
    if accumCount > 0 {
      DigitWidth(accumCount);
      bitLength := AppendGroup(accumData, accumCount * 3 + 1, buf, bitLength,
                               DIGITS, codes, |digits| - accumCount, accumCount, bitLen);
    }
    PackingEnd(DIGITS, codes, buf[..], bitLength, bitLen);
    seg := Segment(Numeric, |digits|, buf, 0, bitLength);
  }

  /** One more digit in the accumulator. */
  lemma DigitNext(digits: string, i: nat, accumData: nat, accumCount: nat)
    requires AllDigits(digits) && i < |digits| && Accumulated(DIGITS, DigitCodes(digits), i, accumData, accumCount)
    ensures accumCount <= 2 && accumCount <= i && (i - accumCount) % 3 == 0 && IsDigit(digits[i])
    ensures var data := accumData * 10 + (digits[i] as int - '0' as int);
            && (accumCount < 2 ==> Accumulated(DIGITS, DigitCodes(digits), i + 1, data, accumCount + 1))
            && data == GroupValue(10, DigitCodes(digits)[i - accumCount..i + 1])
    ensures accumCount == 2 ==> Accumulated(DIGITS, DigitCodes(digits), i + 1, 0, 0)
  {
    hide GroupValue, Accumulated;
    AccumulatedNext(DIGITS, DigitCodes(digits), i, accumData, accumCount);
  }

  lemma DigitWidth(k: nat)
    requires 1 <= k <= 3
    ensures DIGITS.widths[k] == k * 3 + 1
  {
  }

  lemma AccumulatedValue(p: Packing, codes: seq<nat>, accumData: nat, accumCount: nat)
    requires Accumulated(p, codes, |codes|, accumData, accumCount)
    ensures accumCount < p.group && accumCount <= |codes| && (|codes| - accumCount) % p.group == 0
    ensures accumData == GroupValue(p.base, codes[|codes| - accumCount..|codes|])
  {
    hide GroupValue;
    GroupSteps(|codes|, p.group);
  }

  /** One more character in the accumulator. */
  lemma CharacterNext(text: string, i: nat, accumData: nat, accumCount: nat)
    requires AllCharacters(text) && i < |text|
    requires Accumulated(CHARACTERS, CharacterCodes(text), i, accumData, accumCount)
    ensures accumCount <= 1 && accumCount <= i && (i - accumCount) % 2 == 0
    ensures var data := accumData * 45 + CharIndex(text[i]);
            && (accumCount < 1 ==> Accumulated(CHARACTERS, CharacterCodes(text), i + 1, data, accumCount + 1))
            && data == GroupValue(45, CharacterCodes(text)[i - accumCount..i + 1])
    ensures accumCount == 1 ==> Accumulated(CHARACTERS, CharacterCodes(text), i + 1, 0, 0)
  {
    hide GroupValue, Accumulated, CharIndex, Charset;
    AccumulatedNext(CHARACTERS, CharacterCodes(text), i, accumData, accumCount);
  }

  method MakeAlphanumeric(text: string, buf: array<byte>) returns (seg: Segment)
    requires AllCharacters(text) && SegmentBitLength(Alphanumeric, |text|) != -1
    requires SegmentBitLength(Alphanumeric, |text|) <= 8 * buf.Length
    modifies buf
    ensures seg == Segment(Alphanumeric, |text|, buf, 0, SegmentBitLength(Alphanumeric, |text|))
    ensures Readable(seg) && SegmentData(seg) == PackedBits(CHARACTERS, CharacterCodes(text))
  {
    hide PackedBits, Holds, Packed, Accumulated, GroupValue, CharIndex, Charset, CharacterCodes, AllCharacters,
         SegmentBitLength;
    LengthBounds(Alphanumeric, |text|);
    ghost var codes := CharacterCodes(text);
    var bitLen := ClearBuffer(Alphanumeric, |text|, buf, CHARACTERS, codes);
    var bitLength: nat, accumData: nat, accumCount: nat := 0, 0, 0;
    for i := 0 to |text|
      invariant accumCount <= 1 && accumCount <= i
      invariant Accumulated(CHARACTERS, codes, i, accumData, accumCount)
      invariant Packed(CHARACTERS, codes, i - accumCount, buf[..], bitLength, bitLen)
    {
      CharacterNext(text, i, accumData, accumCount);
      accumData := accumData * 45 + CharIndex(text[i]);
      accumCount := accumCount + 1;
      if accumCount == 2 {
        bitLength := AppendGroup(accumData, 11, buf, bitLength, CHARACTERS, codes, i - 1, 2, bitLen);
        accumData, accumCount := 0, 0;
      }
    }
    AccumulatedValue(CHARACTERS, codes, accumData, accumCount);
    if accumCount > 0 {
      bitLength := AppendGroup(accumData, 6, buf, bitLength,
                               CHARACTERS, codes, |text| - accumCount, accumCount, bitLen);
    }
    PackingEnd(CHARACTERS, codes, buf[..], bitLength, bitLen);
    seg := Segment(Alphanumeric, |text|, buf, 0, bitLength);
  }

  /** Byte segments exist for exactly the lengths up to 4095: one byte more and there is no bit length. */
  lemma ByteLengthLimit(len: nat)
    ensures SegmentBitLength(Byte, len) != -1 <==> len <= 4095
    ensures SegmentBitLength(Byte, 4096) == -1
  {
  }

  /** The longest digit strings and alphanumeric strings that have a length in bits. */
  lemma TextLengthLimit(len: nat)
    ensures SegmentBitLength(Numeric, len) != -1 <==> len <= 9830
    ensures SegmentBitLength(Alphanumeric, len) != -1 <==> len <= 5957
    ensures SegmentBitLength(Kanji, len) != -1 <==> len <= 2520
    ensures SegmentBitLength(Eci, 0) == 24
  {
  }

  /** The bytes are copied; the buffer may be the array they come from only if they stay in place. */
  method MakeBytes(data: array<byte>, len: nat, buf: array<byte>) returns (seg: Segment)
    requires len <= data.Length && len <= buf.Length && SegmentBitLength(Byte, len) != -1
    modifies buf
    ensures seg == Segment(Byte, len, buf, 0, 8 * len)
    ensures Readable(seg) && SegmentData(seg) == Stream(old(data[..]), 8 * len)
  {
    var bitLength := CalcSegmentBitLength(Byte, len);
    ghost var d := data[..];
    forall k | 0 <= k < len { buf[k] := data[k]; }
    seg := Segment(Byte, len, buf, 0, bitLength);
    SameStream(d, buf[..], 8 * len);
    assert buf[0..] == buf[..];
  }

  lemma SameStream(a: seq<byte>, b: seq<byte>, n: nat)
    requires n <= 8 * |a| && n <= 8 * |b| && forall k | 0 <= 8 * k < n :: a[k] == b[k]
    ensures Stream(a, n) == Stream(b, n)
  {
    forall k | 0 <= k < n
      ensures StreamBit(a, k) == StreamBit(b, k)
    {
      assert a[k / 8] == b[k / 8];
    }
  }

  // ----- ECI designators

  function EciBits(v: nat): Bits {
    if v < 128 then BitsOf(v, 8)
    else if v < 16384 then BitsOf(2, 2) + BitsOf(v, 14)
    else BitsOf(6, 3) + BitsOf(v / 1024, 11) + BitsOf(v % 1024, 10)
  }

  /** The length of the designator that starts with these bits, or 0 if none does. */
  function EciLength(bits: Bits): nat {
    if |bits| >= 8 && !bits[0] then 8
    else if |bits| >= 16 && bits[0] && !bits[1] then 16
    else if |bits| >= 24 && bits[0] && bits[1] && !bits[2] then 24
    else 0
  }

  function EciValue(bits: Bits): nat {
    var n := EciLength(bits);
    if n == 8 then ValueOf(bits[..8])
    else if n == 16 then ValueOf(bits[2..16])
    else if n == 24 then ValueOf(bits[3..14]) * 1024 + ValueOf(bits[14..24])
    else 0
  }

  method MakeEci(assignVal: nat, buf: array<byte>) returns (seg: Segment)
    requires assignVal < 1000000 && |EciBits(assignVal)| <= 8 * buf.Length
    modifies buf
    ensures seg == Segment(Eci, 0, buf, 0, |EciBits(assignVal)|)
    ensures Readable(seg) && SegmentData(seg) == EciBits(assignVal)
  {
    hide Holds, Shr, BitsOf;
    var n := if assignVal < 128 then 1 else if assignVal < 16384 then 2 else 3;
    forall k | 0 <= k < n { buf[k] := 0; }
    ClearedHolds(buf[..], 8 * n);
    EciParts(assignVal);
    var bitLength := 0;
    if assignVal < 128 {
      bitLength := AppendBitsToBuffer(assignVal, 8, buf, bitLength, [], 8);
    } else if assignVal < 16384 {
      bitLength := AppendBitsToBuffer(2, 2, buf, bitLength, [], 16);
      bitLength := AppendBitsToBuffer(assignVal, 14, buf, bitLength, [] + BitsOf(2, 2), 16);
    } else {
      bitLength := AppendBitsToBuffer(6, 3, buf, bitLength, [], 24);
      bitLength := AppendBitsToBuffer(assignVal / 1024, 11, buf, bitLength, [] + BitsOf(6, 3), 24);
      bitLength := AppendBitsToBuffer(assignVal % 1024, 10, buf, bitLength,
                                      [] + BitsOf(6, 3) + BitsOf(assignVal / 1024, 11), 24);
    }
    StreamOfFull(buf[..], EciBits(assignVal), bitLength);
    seg := Segment(Eci, 0, buf, 0, bitLength);
  }

  lemma EciParts(v: nat)
    requires v < 1000000
    ensures v < 128 ==> Shr(v, 8) == 0
    ensures v < 16384 ==> Shr(v, 14) == 0
    ensures Shr(v / 1024, 11) == 0 && Shr(v % 1024, 10) == 0
    ensures Shr(2, 2) == 0 && Shr(6, 3) == 0
    ensures [] + BitsOf(v, 8) == BitsOf(v, 8) && [] + BitsOf(2, 2) == BitsOf(2, 2) && [] + BitsOf(6, 3) == BitsOf(6, 3)
  {
    hide Shr;
    assert Pow2(8) == 256 && Pow2(14) == 16384 && Pow2(11) == 2048 && Pow2(10) == 1024;
    assert Pow2(2) == 4 && Pow2(3) == 8 && Pow2(0) == 1;
    ShrBounded(v, 8, 0); ShrBounded(v, 14, 0);
    ShrBounded(v / 1024, 11, 0); ShrBounded(v % 1024, 10, 0);
    ShrBounded(2, 2, 0); ShrBounded(6, 3, 0);
  }

  /** The designator can be read back, whatever follows it. */
  lemma EciRoundTrip(v: nat, rest: Bits)
    requires v < 1000000
    ensures EciLength(EciBits(v) + rest) == |EciBits(v)| && EciValue(EciBits(v) + rest) == v
  {
    hide ValueOf;
    assert Pow2(8) == 256 && Pow2(14) == 16384 && Pow2(11) == 2048 && Pow2(10) == 1024;
    var s := EciBits(v) + rest;
    if v < 128 {
      assert s[..8] == BitsOf(v, 8);
      ValueOfBits(v, 8);
      assert Pow2(7) == 128;
      ShrBounded(v, 7, 0);
    } else if v < 16384 {
      assert s[2..16] == BitsOf(v, 14);
      ValueOfBits(v, 14);
      SmallBits();
    } else {
      assert s[3..14] == BitsOf(v / 1024, 11) && s[14..24] == BitsOf(v % 1024, 10);
      ValueOfBits(v / 1024, 11);
      ValueOfBits(v % 1024, 10);
      SmallBits();
    }
  }

  lemma SmallBits()
    ensures BitsOf(2, 2) == [true, false] && BitsOf(6, 3) == [true, true, false]
  {
  }
}

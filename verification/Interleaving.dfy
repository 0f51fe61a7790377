/** Splitting the data into blocks, and interleaving the blocks with their error correction. */
module Interleaving {
  import opened Arithmetic
  import opened Bitwise
  import opened ReedSolomon
  import opened Tables

  /** The numbers of blocks, of error correction codewords per block, and of codewords in all. */
  datatype Layout = Layout(blocks: nat, ecc: nat, raw: nat) {
    predicate Ok() {
      blocks >= 1 && 1 <= ecc <= raw / blocks
    }

    function NumShort(): int
      requires Ok()
    {
      blocks - raw % blocks
    }

    function ShortLen(): nat
      requires Ok()
    {
      raw / blocks - ecc
    }

    function DataLen(): int {
      raw - ecc * blocks
    }

    /** The number of data codewords of block i. */
    function Len(i: nat): nat
      requires Ok()
    {
      ShortLen() + if i < NumShort() then 0 else 1
    }

    /** Where block i starts in the data. */
    function Start(i: nat): nat
      requires Ok()
    {
      i * ShortLen() + if i <= NumShort() then 0 else i - NumShort()
    }
  }

  /** A place in a block: a data codeword or an error correction codeword. */
  datatype Slot = DataSlot(block: nat, pos: nat) | EccSlot(block: nat, pos: nat)

  predicate HasSlot(l: Layout, s: Slot)
    requires l.Ok()
  {
    s.block < l.blocks && s.pos < if s.DataSlot? then l.Len(s.block) else l.ecc
  }

  /** The index of a slot in the interleaved sequence. */
  function IndexOf(l: Layout, s: Slot): int
    requires l.Ok()
  {
    match s
    case DataSlot(i, j) => if j < l.ShortLen() then j * l.blocks + i else l.ShortLen() * l.blocks + i - l.NumShort()
    case EccSlot(i, j) => l.DataLen() + j * l.blocks + i
  }

  /** The slot at an index of the interleaved sequence. */
  function SlotAt(l: Layout, k: nat): Slot
    requires l.Ok()
  {
    if k < l.ShortLen() * l.blocks then DataSlot(k % l.blocks, k / l.blocks)
    else if k < l.DataLen() then DataSlot(k - l.ShortLen() * l.blocks + l.NumShort(), l.ShortLen())
    else EccSlot((k - l.DataLen()) % l.blocks, (k - l.DataLen()) / l.blocks)
  }

  // ----- Arithmetic of rows of `blocks` codewords

  lemma RowColumn(j: nat, i: nat, b: nat)
    requires i < b
    ensures (j * b + i) / b == j && (j * b + i) % b == i
  {
    var k := j * b + i;
    var q, r := k / b, k % b;
    assert k == q * b + r;
    if q < j {
      RowsApart(q, j, b);
    } else if q > j {
      RowsApart(j, q, b);
    }
  }

  lemma LayoutSums(l: Layout)
    requires l.Ok()
    ensures 1 <= l.NumShort() <= l.blocks
    ensures l.raw == (l.ShortLen() + l.ecc) * l.blocks + l.raw % l.blocks
    ensures l.DataLen() == l.ShortLen() * l.blocks + l.blocks - l.NumShort()
    ensures l.DataLen() + l.ecc * l.blocks == l.raw
  {
    var q := l.raw / l.blocks;
    assert l.raw == q * l.blocks + l.raw % l.blocks;
    assert (q - l.ecc) * l.blocks == q * l.blocks - l.ecc * l.blocks;
  }

  lemma RowBound(j: nat, i: nat, b: nat, rows: nat)
    requires i < b && j < rows
    ensures j * b + i < rows * b
  {
    RowsApart(j, rows, b);
  }

  // ----- Slots and indices correspond one to one

  lemma DataSlotOfIndex(l: Layout, i: nat, j: nat)
    requires l.Ok() && HasSlot(l, DataSlot(i, j))
    ensures 0 <= IndexOf(l, DataSlot(i, j)) < l.DataLen() <= l.raw
    ensures SlotAt(l, IndexOf(l, DataSlot(i, j))) == DataSlot(i, j)
  {
    LayoutSums(l);
    hide Layout.ShortLen, Layout.NumShort, Layout.DataLen;
    if j < l.ShortLen() {
      RowBound(j, i, l.blocks, l.ShortLen());
      RowColumn(j, i, l.blocks);
    }
  }

  lemma EccSlotOfIndex(l: Layout, i: nat, j: nat)
    requires l.Ok() && HasSlot(l, EccSlot(i, j))
    ensures 0 <= l.DataLen() <= IndexOf(l, EccSlot(i, j)) < l.raw
    ensures SlotAt(l, IndexOf(l, EccSlot(i, j))) == EccSlot(i, j)
  {
    LayoutSums(l);
    RowBound(j, i, l.blocks, l.ecc);
    RowColumn(j, i, l.blocks);
  }

  /** Every slot has an index below the number of codewords, and is the slot at that index. */
  lemma SlotOfIndex(l: Layout, s: Slot)
    requires l.Ok() && HasSlot(l, s)
    ensures 0 <= IndexOf(l, s) < l.raw && SlotAt(l, IndexOf(l, s)) == s
  {
    hide IndexOf, SlotAt, HasSlot;
    match s {
      case DataSlot(i, j) => DataSlotOfIndex(l, i, j);
      case EccSlot(i, j) => EccSlotOfIndex(l, i, j);
    }
  }

  /** Every index holds a slot, at that index. */
  lemma IndexOfSlot(l: Layout, k: nat)
    requires l.Ok() && k < l.raw
    ensures HasSlot(l, SlotAt(l, k)) && IndexOf(l, SlotAt(l, k)) == k
  {
    LayoutSums(l);
    var b, m := l.blocks, k - l.DataLen();
    if k < l.ShortLen() * b {
      QuotientBelow(k, b, l.ShortLen());
    } else if k >= l.DataLen() {
      QuotientBelow(m, b, l.ecc);
    }
  }

  lemma QuotientBelow(k: nat, b: nat, rows: nat)
    requires b > 0 && k < rows * b
    ensures k / b < rows && k == k / b * b + k % b
  {
    if k / b >= rows { MulMonotone(rows, k / b, b); }
  }

  lemma {:induction false} StartNext(l: Layout, i: nat)
    requires l.Ok() && i < l.blocks
    ensures l.Start(i + 1) == l.Start(i) + l.Len(i)
    ensures l.Start(0) == 0
  {
    assert (i + 1) * l.ShortLen() == i * l.ShortLen() + l.ShortLen();
  }

  lemma {:induction false} StartBound(l: Layout, i: nat)
    requires l.Ok() && i <= l.blocks
    ensures l.Start(i) <= l.DataLen()
    ensures l.Start(l.blocks) == l.DataLen()
    decreases l.blocks - i
  {
    LayoutSums(l);
    assert l.Start(l.blocks) == l.DataLen();
    if i < l.blocks {
      StartNext(l, i);
      StartBound(l, i + 1);
    }
  }

  // ----- Contents

  function Block(data: seq<byte>, l: Layout, i: nat): (b: seq<byte>)
    requires l.Ok() && i < l.blocks && l.DataLen() <= |data|
    ensures |b| == l.Len(i)
  {
    StartNext(l, i);
    StartBound(l, i + 1);
    data[l.Start(i)..l.Start(i) + l.Len(i)]
  }

  function Content(data: seq<byte>, l: Layout, s: Slot): byte
    requires l.Ok() && HasSlot(l, s) && l.DataLen() <= |data|
  {
    var b := Block(data, l, s.block);
    if s.DataSlot? then b[s.pos] else Remainder(b, Divisor(l.ecc))[s.pos]
  }

  /** The interleaved codewords of the given data. */
  function Interleaved(data: seq<byte>, l: Layout): (r: seq<byte>)
    requires l.Ok() && l.DataLen() <= |data|
    ensures |r| == l.raw
  {
    seq(l.raw, k requires 0 <= k < l.raw => IndexOfSlot(l, k); Content(data, l, SlotAt(l, k)))
  }

  lemma InterleavedAt(data: seq<byte>, l: Layout, s: Slot)
    requires l.Ok() && l.DataLen() <= |data| && HasSlot(l, s)
    ensures 0 <= IndexOf(l, s) < l.raw && Interleaved(data, l)[IndexOf(l, s)] == Content(data, l, s)
  {
    hide IndexOf, SlotAt, Content;
    SlotOfIndex(l, s);
  }

  /** The j-th codewords of all blocks lie together, in the order of the blocks; the short blocks have no last one. */
  lemma DataPlace(data: seq<byte>, l: Layout, i: nat, j: nat)
    requires l.Ok() && l.DataLen() <= |data| && i < l.blocks && j < l.Len(i)
    ensures var k := j * l.blocks + i - if j == l.ShortLen() then l.NumShort() else 0;
            0 <= k < l.DataLen() && Interleaved(data, l)[k] == Block(data, l, i)[j]
  {
    hide Interleaved, Block;
    DataSlotOfIndex(l, i, j);
    InterleavedAt(data, l, DataSlot(i, j));
  }

  /** Behind the data, the j-th error correction codewords of all blocks lie together. */
  lemma EccPlace(data: seq<byte>, l: Layout, i: nat, j: nat)
    requires l.Ok() && l.DataLen() <= |data| && i < l.blocks && j < l.ecc
    ensures 0 <= l.DataLen() + j * l.blocks + i < l.raw
    ensures Interleaved(data, l)[l.DataLen() + j * l.blocks + i] == Remainder(Block(data, l, i), Divisor(l.ecc))[j]
  {
    hide Interleaved, Block, Remainder, Divisor;
    EccSlotOfIndex(l, i, j);
    InterleavedAt(data, l, EccSlot(i, j));
  }

  // ----- The way back

  function BlockFrom(raw: seq<byte>, l: Layout, i: nat): (b: seq<byte>)
    requires l.Ok() && |raw| == l.raw && i < l.blocks
    ensures |b| == l.Len(i)
  {
    seq(l.Len(i), j requires 0 <= j < l.Len(i) => SlotOfIndex(l, DataSlot(i, j)); raw[IndexOf(l, DataSlot(i, j))])
  }

  function EccFrom(raw: seq<byte>, l: Layout, i: nat): (e: seq<byte>)
    requires l.Ok() && |raw| == l.raw && i < l.blocks
    ensures |e| == l.ecc
  {
    seq(l.ecc, j requires 0 <= j < l.ecc => SlotOfIndex(l, EccSlot(i, j)); raw[IndexOf(l, EccSlot(i, j))])
  }

  /** The data of the first i blocks. */
  function DataFrom(raw: seq<byte>, l: Layout, i: nat): seq<byte>
    requires l.Ok() && |raw| == l.raw && i <= l.blocks
  {
    if i == 0 then [] else DataFrom(raw, l, i - 1) + BlockFrom(raw, l, i - 1)
  }

  function Deinterleaved(raw: seq<byte>, l: Layout): seq<byte>
    requires l.Ok() && |raw| == l.raw
  {
    DataFrom(raw, l, l.blocks)
  }

  /** The de-interleaver recovers each block and its error correction. */
  lemma BlockRecovered(data: seq<byte>, l: Layout, i: nat)
    requires l.Ok() && l.DataLen() <= |data| && i < l.blocks
    ensures BlockFrom(Interleaved(data, l), l, i) == Block(data, l, i)
    ensures EccFrom(Interleaved(data, l), l, i) == Remainder(Block(data, l, i), Divisor(l.ecc))
  {
    hide IndexOf, SlotAt, Interleaved, Remainder, Divisor, Block;
    var raw := Interleaved(data, l);
    forall j | 0 <= j < l.Len(i)
      ensures BlockFrom(raw, l, i)[j] == Block(data, l, i)[j]
    {
      InterleavedAt(data, l, DataSlot(i, j));
    }
    forall j | 0 <= j < l.ecc
      ensures EccFrom(raw, l, i)[j] == Remainder(Block(data, l, i), Divisor(l.ecc))[j]
    {
      InterleavedAt(data, l, EccSlot(i, j));
    }
  }

  lemma BlockIsSlice(data: seq<byte>, l: Layout, i: nat)
    requires l.Ok() && l.DataLen() <= |data| && i < l.blocks
    ensures l.Start(i) <= l.Start(i + 1) <= |data|
    ensures Block(data, l, i) == data[l.Start(i)..l.Start(i + 1)]
  {
    hide Layout.Start, Layout.Len;
    StartNext(l, i);
    StartBound(l, i + 1);
  }

  lemma SubSlice<T>(s: seq<T>, n: nat, a: nat, b: nat)
    requires a <= b <= n <= |s|
    ensures s[..n][a..b] == s[a..b]
  {
  }

  lemma SlicesJoin<T>(s: seq<T>, a: nat, b: nat)
    requires a <= b <= |s|
    ensures s[..a] + s[a..b] == s[..b]
  {
  }

  lemma DataFromNext(raw: seq<byte>, l: Layout, i: nat)
    requires l.Ok() && |raw| == l.raw && i < l.blocks
    ensures DataFrom(raw, l, i + 1) == DataFrom(raw, l, i) + BlockFrom(raw, l, i)
    ensures DataFrom(raw, l, 0) == []
  {
    hide BlockFrom;
  }

  lemma {:induction false} DataFromBlocks(data: seq<byte>, raw: seq<byte>, l: Layout, i: nat)
    requires l.Ok() && l.DataLen() <= |data| && |raw| == l.raw && i <= l.blocks
    requires forall k: nat | k < l.blocks :: BlockFrom(raw, l, k) == Block(data, l, k)
    ensures l.Start(i) <= |data| && DataFrom(raw, l, i) == data[..l.Start(i)]
  {
    hide BlockFrom, DataFrom, Block, Layout.Start, Layout.Len, Layout.DataLen;
    StartBound(l, i);
    if i == 0 {
      DataFromNext(raw, l, 0);
      StartNext(l, 0);
    } else {
      DataFromNext(raw, l, i - 1);
      DataFromBlocks(data, raw, l, i - 1);
      BlockIsSlice(data, l, i - 1);
      SlicesJoin(data, l.Start(i - 1), l.Start(i));
    }
  }

  /** De-interleaving gives the data back, for every layout. */
  lemma InterleaveRoundTrip(data: seq<byte>, l: Layout)
    requires l.Ok() && l.DataLen() <= |data|
    ensures l.DataLen() >= 0 && Deinterleaved(Interleaved(data, l), l) == data[..l.DataLen()]
  {
    hide Interleaved, BlockFrom, Block;
    StartBound(l, l.blocks);
    forall k: nat | k < l.blocks
      ensures BlockFrom(Interleaved(data, l), l, k) == Block(data, l, k)
    {
      BlockRecovered(data, l, k);
    }
    DataFromBlocks(data, Interleaved(data, l), l, l.blocks);
  }

  // ----- The encoder's loops

  /** The slots written before block i, and of block i those before the given positions. */
  predicate Written(l: Layout, i: nat, j: nat, e: nat, s: Slot) {
    s.block < i || (s.block == i && if s.DataSlot? then s.pos < j else s.pos < e)
  }

  /** The result holds what belongs there in every slot written so far. */
  ghost predicate Filled(data: seq<byte>, l: Layout, i: nat, j: nat, e: nat, result: seq<byte>)
    requires l.Ok() && l.DataLen() <= |data| && l.raw <= |result|
  {
    forall s | HasSlot(l, s) && Written(l, i, j, e, s) ::
      0 <= IndexOf(l, s) < l.raw && result[IndexOf(l, s)] == Content(data, l, s)
  }

  /** Writing one more slot keeps the others. */
  lemma FilledNext(data: seq<byte>, l: Layout, i: nat, j: nat, e: nat, result: seq<byte>,
                   s: Slot, k: int, next: seq<byte>)
    requires l.Ok() && l.DataLen() <= |data| && l.raw <= |result| && HasSlot(l, s) && s.block == i
    requires Filled(data, l, i, j, e, result)
    requires if s.DataSlot? then s.pos == j else s.pos == e
    requires k == IndexOf(l, s) && 0 <= k < l.raw && next == result[k := Content(data, l, s)]
    ensures if s.DataSlot? then Filled(data, l, i, j + 1, e, next) else Filled(data, l, i, j, e + 1, next)
  {
    hide IndexOf, Content, HasSlot;
    forall t | HasSlot(l, t)
      ensures 0 <= IndexOf(l, t) < l.raw
      ensures IndexOf(l, t) == IndexOf(l, s) ==> t == s
    {
      SlotOfIndex(l, t);
      SlotOfIndex(l, s);
    }
  }

  lemma FilledBlock(data: seq<byte>, l: Layout, i: nat, result: seq<byte>)
    requires l.Ok() && l.DataLen() <= |data| && l.raw <= |result| && i < l.blocks
    requires Filled(data, l, i, l.Len(i), l.ecc, result)
    ensures Filled(data, l, i + 1, 0, 0, result)
  {
    hide IndexOf, Content;
  }

  lemma FilledAll(data: seq<byte>, l: Layout, result: seq<byte>)
    requires l.Ok() && l.DataLen() <= |data| && l.raw <= |result|
    requires Filled(data, l, l.blocks, 0, 0, result)
    ensures result[..l.raw] == Interleaved(data, l)
  {
    hide IndexOf, Content, SlotAt;
    forall k | 0 <= k < l.raw
      ensures result[k] == Interleaved(data, l)[k]
    {
      IndexOfSlot(l, k);
      assert HasSlot(l, SlotAt(l, k)) && Written(l, l.blocks, 0, 0, SlotAt(l, k));
    }
  }

  lemma NextRow(j: nat, b: nat, i: nat)
    ensures j * b + i + b == (j + 1) * b + i
    ensures 0 * b + i == i
  {
  }

  lemma DataIndex(l: Layout, i: nat, j: nat)
    requires l.Ok() && i < l.blocks && j < l.Len(i)
    ensures IndexOf(l, DataSlot(i, j)) == j * l.blocks + i - (if j == l.ShortLen() then l.NumShort() else 0)
    ensures j <= l.ShortLen()
    ensures 0 <= IndexOf(l, DataSlot(i, j)) < l.raw
  {
    DataSlotOfIndex(l, i, j);
  }

  /** Copy the data of block i into its places. */
  method CopyData(data: array<byte>, l: Layout, i: nat, dat: nat, datLen: nat, result: array<byte>, ghost d: seq<byte>)
    requires data != result && l.Ok() && i < l.blocks
    requires l.DataLen() <= |d| && datLen == l.Len(i) && dat + datLen <= data.Length
    requires data[dat..dat + datLen] == Block(d, l, i)
    requires l.raw <= result.Length && Filled(d, l, i, 0, 0, result[..])
    modifies result
    ensures Filled(d, l, i, datLen, 0, result[..])
  {
    hide Filled, Block, IndexOf, Layout.Start, Layout.Len, Layout.DataLen, Layout.ShortLen, Layout.NumShort;
    var shortBlockDataLen, numShortBlocks := l.ShortLen(), l.NumShort();
    ghost var b := Block(d, l, i);
    var k: int := i;
    NextRow(0, l.blocks, i);
    for j := 0 to datLen
      invariant data[dat..dat + datLen] == b
      invariant Filled(d, l, i, j, 0, result[..])
      invariant j < datLen ==> k == j * l.blocks + i
    {
      DataIndex(l, i, j);
      if j == shortBlockDataLen { k := k - numShortBlocks; }
      ghost var before := result[..];
      assert data[dat + j] == b[j];
      result[k] := data[dat + j];
      FilledNext(d, l, i, j, 0, before, DataSlot(i, j), k, result[..]);
      NextRow(j, l.blocks, i);
      if j + 1 < datLen { DataIndex(l, i, j + 1); }
      k := k + l.blocks;
    }
  }

  /** Copy the error correction of block i from the scratch space into its places. */
  method CopyEcc(data: array<byte>, l: Layout, i: nat, dataLen: nat, result: array<byte>, ghost d: seq<byte>)
    requires data != result && l.Ok() && i < l.blocks
    requires l.DataLen() == dataLen <= |d| && dataLen + l.ecc <= data.Length
    requires data[dataLen..dataLen + l.ecc] == Remainder(Block(d, l, i), Divisor(l.ecc))
    requires l.raw <= result.Length && Filled(d, l, i, l.Len(i), 0, result[..])
    modifies result
    ensures Filled(d, l, i, l.Len(i), l.ecc, result[..])
  {
    hide Filled, Block, Remainder, Divisor, Layout.Start, Layout.Len, Layout.DataLen, Layout.ShortLen, Layout.NumShort;
    ghost var e := data[dataLen..dataLen + l.ecc];
    var k: int := dataLen + i;
    NextRow(0, l.blocks, i);
    for j := 0 to l.ecc
      invariant data[dataLen..dataLen + l.ecc] == e
      invariant Filled(d, l, i, l.Len(i), j, result[..])
      invariant k == dataLen + j * l.blocks + i
    {
      SlotOfIndex(l, EccSlot(i, j));
      ghost var before := result[..];
      assert data[dataLen + j] == e[j];
      result[k] := data[dataLen + j];
      FilledNext(d, l, i, l.Len(i), j, before, EccSlot(i, j), k, result[..]);
      NextRow(j, l.blocks, i);
      k := k + l.blocks;
    }
  }

  /** One block: its error correction goes to the scratch space, then both are copied. */
  method InterleaveBlock(data: array<byte>, l: Layout, i: nat, dat: nat, dataLen: nat, rsdiv: array<byte>,
                         result: array<byte>, ghost d: seq<byte>)
    returns (next: nat)
    requires data != result && rsdiv != data && rsdiv != result && l.Ok() && l.ecc <= 30 && i < l.blocks
    requires l.raw <= result.Length && dataLen == l.DataLen() && dataLen + l.ecc <= data.Length
    requires rsdiv.Length == 30 && rsdiv[..l.ecc] == Divisor(l.ecc)
    requires d == data[..dataLen] && dat == l.Start(i) && Filled(d, l, i, 0, 0, result[..])
    modifies data, result
    ensures data[..dataLen] == d && rsdiv[..l.ecc] == Divisor(l.ecc)
    ensures next == l.Start(i + 1) && Filled(d, l, i + 1, 0, 0, result[..])
  {
    hide Filled, Block, Remainder, Divisor, IndexOf, Layout.Start, Layout.ShortLen, Layout.NumShort;
    var datLen := l.ShortLen() + if i < l.NumShort() then 0 else 1;
    StartNext(l, i);
    StartBound(l, i + 1);
    BlockIsSlice(d, l, i);
    SubSlice(data[..], dataLen, dat, dat + datLen);
    ComputeRemainder(data, dat, datLen, rsdiv, l.ecc, data, dataLen);
    assert data[..dataLen] == d;
    SubSlice(data[..], dataLen, dat, dat + datLen);
    CopyData(data, l, i, dat, datLen, result, d);
    CopyEcc(data, l, i, dataLen, result, d);
    FilledBlock(d, l, i, result[..]);
    next := dat + datLen;
  }

  /**
   Append error correction to each block and interleave everything into the result. The space
   of `data` behind the data codewords holds the error correction of one block at a time.
   */
  method InterleaveBlocks(data: array<byte>, l: Layout, result: array<byte>)
    requires data != result && l.Ok() && l.ecc <= 30
    requires l.raw <= result.Length && l.raw <= data.Length
    modifies data, result
    ensures 0 <= l.DataLen() <= l.raw && data[..l.DataLen()] == old(data[..l.DataLen()])
    ensures result[..l.raw] == Interleaved(data[..l.DataLen()], l)
  {
    hide Filled, Divisor, Layout.Start, Layout.ShortLen, Layout.NumShort, Interleaved;
    LayoutBounds(l);
    var dataLen := l.DataLen();
    var rsdiv := new byte[30];
    ComputeDivisor(l.ecc, rsdiv);
    ghost var d := data[..dataLen];
    var dat := 0;
    StartNext(l, 0);
    FilledNone(d, l, result[..]);
    for i := 0 to l.blocks
      invariant rsdiv[..l.ecc] == Divisor(l.ecc)
      invariant data[..dataLen] == d
      invariant dat == l.Start(i)
      invariant Filled(d, l, i, 0, 0, result[..])
    {
      dat := InterleaveBlock(data, l, i, dat, dataLen, rsdiv, result, d);
    }
    FilledAll(d, l, result[..]);
  }

  lemma LayoutBounds(l: Layout)
    requires l.Ok()
    ensures 0 <= l.DataLen() && l.DataLen() + l.ecc <= l.raw
  {
    LayoutSums(l);
    StartBound(l, 0);
    MulMonotone(1, l.blocks, l.ecc);
  }

  lemma FilledNone(data: seq<byte>, l: Layout, result: seq<byte>)
    requires l.Ok() && l.DataLen() <= |data| && l.raw <= |result|
    ensures Filled(data, l, 0, 0, 0, result)
  {
  }

  // ----- With the tables

  lemma TableLayout(v: Version, ecl: Ecc)
    ensures NumBlocks(v, ecl) >= 1 && 1 <= EccLength(v, ecl) <= 30 && RawCodewords(v) >= 0
    ensures EccLength(v, ecl) <= RawCodewords(v) / NumBlocks(v, ecl)
  {
    hide NumBlocks, EccLength, RawCodewords;
    BlockSizes(v, ecl);
  }

  function LayoutOf(v: Version, ecl: Ecc): (l: Layout)
    ensures l.Ok() && l.ecc <= 30 && l.raw == RawCodewords(v) && l.DataLen() == NumDataCodewords(v, ecl)
  {
    TableLayout(v, ecl);
    Layout(NumBlocks(v, ecl), EccLength(v, ecl), RawCodewords(v))
  }

  method AddEccAndInterleave(data: array<byte>, version: Version, ecl: Ecc, result: array<byte>)
    requires data != result
    requires RawCodewords(version) <= result.Length && RawCodewords(version) <= data.Length
    modifies data, result
    ensures 0 <= NumDataCodewords(version, ecl) <= RawCodewords(version)
    ensures result[..RawCodewords(version)]
         == Interleaved(old(data[..])[..NumDataCodewords(version, ecl)], LayoutOf(version, ecl))
  {
    hide Interleaved, NumBlocks, EccLength, RawCodewords, NumDataCodewords;
    var l := LayoutOf(version, ecl);
    LayoutBounds(l);
    assert old(data[..])[..l.DataLen()] == data[..l.DataLen()];
    InterleaveBlocks(data, l, result);
  }

  // ----- Tolerance

  /** A block as received: its data and its error correction codewords. */
  function ReceivedBlock(raw: seq<byte>, l: Layout, i: nat): (b: seq<byte>)
    requires l.Ok() && |raw| == l.raw && i < l.blocks
    ensures |b| == l.Len(i) + l.ecc
  {
    BlockFrom(raw, l, i) + EccFrom(raw, l, i)
  }

  /** In no block are more than half as many codewords wrong as there are error correction codewords. */
  ghost predicate WithinTolerance(received: seq<byte>, data: seq<byte>, l: Layout)
    requires l.Ok() && |received| == l.raw && l.DataLen() <= |data|
  {
    forall i: nat | i < l.blocks ::
      2 * Distance(ReceivedBlock(received, l, i), ReceivedBlock(Interleaved(data, l), l, i)) <= l.ecc
  }

  lemma NothingWrong(data: seq<byte>, l: Layout)
    requires l.Ok() && l.DataLen() <= |data|
    ensures WithinTolerance(Interleaved(data, l), data, l)
  {
    hide Interleaved, ReceivedBlock, Distance;
    forall i: nat | i < l.blocks
      ensures Distance(ReceivedBlock(Interleaved(data, l), l, i), ReceivedBlock(Interleaved(data, l), l, i)) == 0
    {
      var b := ReceivedBlock(Interleaved(data, l), l, i);
      DistanceZero(b, b);
    }
  }

  lemma BlockDetermined(data: seq<byte>, other: seq<byte>, l: Layout, received: seq<byte>, i: nat)
    requires l.Ok() && l.raw / l.blocks < 255 && |received| == l.raw && l.DataLen() <= |data| && l.DataLen() <= |other|
    requires i < l.blocks && WithinTolerance(received, data, l) && WithinTolerance(received, other, l)
    ensures Block(data, l, i) == Block(other, l, i)
  {
    hide Interleaved, BlockFrom, EccFrom, Block, Remainder, Divisor, Distance;
    BlockRecovered(data, l, i);
    BlockRecovered(other, l, i);
    Correctable(Block(data, l, i), Block(other, l, i), l.ecc, ReceivedBlock(received, l, i));
  }

  lemma {:induction false} BlocksDetermine(data: seq<byte>, other: seq<byte>, l: Layout, i: nat)
    requires l.Ok() && l.DataLen() == |data| == |other| && i <= l.blocks
    requires forall k: nat | k < l.blocks :: Block(data, l, k) == Block(other, l, k)
    ensures l.Start(i) <= |data| && data[..l.Start(i)] == other[..l.Start(i)]
  {
    hide Block, Layout.Start, Layout.DataLen;
    StartBound(l, i);
    StartNext(l, 0);
    if i > 0 {
      BlocksDetermine(data, other, l, i - 1);
      BlockIsSlice(data, l, i - 1);
      BlockIsSlice(other, l, i - 1);
      SlicesJoin(data, l.Start(i - 1), l.Start(i));
      SlicesJoin(other, l.Start(i - 1), l.Start(i));
    }
  }

  /** However the codewords were damaged within the tolerance of every block, only one data can have been sent. */
  lemma ToleratesErrors(v: Version, ecl: Ecc, data: seq<byte>, other: seq<byte>, received: seq<byte>)
    requires |data| == |other| == NumDataCodewords(v, ecl) && |received| == RawCodewords(v)
    requires WithinTolerance(received, data, LayoutOf(v, ecl)) && WithinTolerance(received, other, LayoutOf(v, ecl))
    ensures data == other
  {
    var l := LayoutOf(v, ecl);
    BlockSizes(v, ecl);
    hide Block, WithinTolerance, RawCodewords, NumDataCodewords, NumBlocks, EccLength;
    forall i: nat | i < l.blocks
      ensures Block(data, l, i) == Block(other, l, i)
    {
      BlockDetermined(data, other, l, received, i);
    }
    BlocksDetermine(data, other, l, l.blocks);
    StartBound(l, l.blocks);
    assert data[..|data|] == data && other[..|other|] == other;
  }

  // ----- The documented shares

  /** A block has at most one codeword more than the quotient. */
  lemma BlockLength(l: Layout, i: nat)
    requires l.Ok() && i < l.blocks
    ensures l.Len(i) + l.ecc <= l.raw / l.blocks + Weight(l.raw % l.blocks > 0)
  {
    hide Weight;
    if i >= l.NumShort() { assert l.raw % l.blocks > 0; }
    WeightIs(l.raw % l.blocks > 0);
  }

  lemma WeightIs(b: bool)
    ensures Weight(b) == if b then 1 else 0
  {
  }

  /** In every block, at most the given percentage of the codewords is wrong. */
  ghost predicate DamagedAtMost(received: seq<byte>, data: seq<byte>, l: Layout, percent: nat)
    requires l.Ok() && |received| == l.raw && l.DataLen() <= |data|
  {
    forall i: nat | i < l.blocks ::
      100 * Distance(ReceivedBlock(received, l, i), ReceivedBlock(Interleaved(data, l), l, i))
      <= percent * (l.Len(i) + l.ecc)
  }

  /** The documented shares of every level are within the tolerance, at every version. */
  lemma DocumentedShare(v: Version, ecl: Ecc, data: seq<byte>, received: seq<byte>)
    requires |data| == NumDataCodewords(v, ecl) && |received| == RawCodewords(v)
    requires DamagedAtMost(received, data, LayoutOf(v, ecl), Percent(ecl))
    ensures WithinTolerance(received, data, LayoutOf(v, ecl))
  {
    var l := LayoutOf(v, ecl);
    hide Interleaved, ReceivedBlock, Distance, RawCodewords, NumDataCodewords, NumBlocks, EccLength, Percent,
         Layout.Len, Layout.DataLen;
    forall i: nat | i < l.blocks
      ensures 50 * l.ecc >= Percent(ecl) * (l.Len(i) + l.ecc)
    {
      BlockLength(l, i);
      ToleratedShare(v, ecl, l.Len(i) + l.ecc);
    }
  }

  /** So codewords damaged by no more than the documented share of every block determine the data. */
  lemma ToleratesDocumentedShare(v: Version, ecl: Ecc, data: seq<byte>, other: seq<byte>, received: seq<byte>)
    requires |data| == |other| == NumDataCodewords(v, ecl) && |received| == RawCodewords(v)
    requires DamagedAtMost(received, data, LayoutOf(v, ecl), Percent(ecl))
    requires DamagedAtMost(received, other, LayoutOf(v, ecl), Percent(ecl))
    ensures data == other
  {
    hide DamagedAtMost, WithinTolerance, RawCodewords, NumDataCodewords, Percent;
    DocumentedShare(v, ecl, data, received);
    DocumentedShare(v, ecl, other, received);
    ToleratesErrors(v, ecl, data, other, received);
  }
}

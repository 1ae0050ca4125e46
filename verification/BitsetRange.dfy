/**
 Assigning or flipping a range of bits: a mask for a part of a block, whole blocks in
 between.
 */
module BitsetRange {
  import opened BitCount
  import opened BitBlock
  import opened BitsetBlocks

  datatype Change = Assign(value: bool) | Flip

  function Changed(c: Change, b: bool): bool {
    match c
    case Assign(value) => value
    case Flip => !b
  }

  function ChangedAll(c: Change, v: bits): (r: bits)
    ensures |r| == |v|
    ensures forall i | 0 <= i < |v| :: r[i] == Changed(c, v[i])
  {
    seq(|v|, i requires 0 <= i < |v| => Changed(c, v[i]))
  }

  /** `v` with the bits from `pos` up to, but not including, `end` changed. */
  function ChangedRange(c: Change, v: bits, pos: nat, end: nat): (r: bits)
    requires pos <= end <= |v|
    ensures |r| == |v|
    ensures forall i | 0 <= i < |v| :: r[i] == if pos <= i < end then Changed(c, v[i]) else v[i]
  {
    v[..pos] + ChangedAll(c, v[pos..end]) + v[end..]
  }

  // ----- a part of a block -----

  /** `bit_mask(first, last)`. */
  function BitMask(first: nat, last: nat, B: nat): nat
    requires first <= last < B
  {
    if last == B - 1 then Shl(AllOnes(B), first, B)
    else Xor(Pow2(last + 1) - 1, Pow2(first) - 1, B)
  }

  lemma BitMaskBits(first: nat, last: nat, B: nat)
    requires first <= last < B
    ensures BitsOf(BitMask(first, last, B), B) ==
            Zeros(first) + Repeat(true, last + 1 - first) + Zeros(B - last - 1)
  {
    hide BitsOf, Pow2;
    if last == B - 1 {
      AllOnesBits(B);
      ShlBits(AllOnes(B), first, B);
      assert Repeat(true, B)[..B - first] == Repeat(true, B - first);
      assert Zeros(first) + Repeat(true, B - first) == Zeros(first) + Repeat(true, B - first) + Zeros(0);
    } else {
      LowOnes(last + 1, B);
      LowOnes(first, B);
      XorBits(Pow2(last + 1) - 1, Pow2(first) - 1, B);
    }
  }

  function ChangedBlock(c: Change, w: nat, first: nat, last: nat, B: nat): nat
    requires first <= last < B
  {
    var mask := BitMask(first, last, B);
    match c
    case Assign(true) => Or(w, mask, B)
    case Assign(false) => AndWord(w, Not(mask, B), B)
    case Flip => Xor(w, mask, B)
  }

  lemma ChangedBlockBits(c: Change, w: nat, first: nat, last: nat, B: nat)
    requires first <= last < B
    ensures ChangedBlock(c, w, first, last, B) < Pow2(B)
    ensures BitsOf(ChangedBlock(c, w, first, last, B), B) == ChangedRange(c, BitsOf(w, B), first, last + 1)
  {
    hide BitsOf, Pow2, BitMask;
    var mask := BitMask(first, last, B);
    BitMaskBits(first, last, B);
    OrBits(w, mask, B);
    NotBits(mask, B);
    AndBits(w, Not(mask, B), B);
    XorBits(w, mask, B);
  }

  /** A block of which every bit changes. */
  function ChangedFull(c: Change, w: nat, B: nat): nat {
    match c
    case Assign(value) => if value then AllOnes(B) else 0
    case Flip => Not(w, B)
  }

  lemma ChangedFullBits(c: Change, w: nat, B: nat)
    ensures ChangedFull(c, w, B) < Pow2(B)
    ensures BitsOf(ChangedFull(c, w, B), B) == ChangedAll(c, BitsOf(w, B))
  {
    hide BitsOf, Pow2, AllOnes;
    AllOnesBits(B);
    ZeroBits(B);
    NotBits(w, B);
  }

  function ChangedBlocks(c: Change, blocks: seq<nat>, B: nat): (r: seq<nat>)
    ensures |r| == |blocks|
    ensures forall k | 0 <= k < |r| :: r[k] == ChangedFull(c, blocks[k], B)
  {
    seq(|blocks|, k requires 0 <= k < |blocks| => ChangedFull(c, blocks[k], B))
  }

  lemma {:induction false} ChangedBlocksBits(c: Change, blocks: seq<nat>, B: nat)
    ensures Fit(ChangedBlocks(c, blocks, B), B)
    ensures Concat(ChangedBlocks(c, blocks, B), B) == ChangedAll(c, Concat(blocks, B))
  {
    hide BitsOf, Pow2, ChangedFull;
    if blocks != [] {
      var r := ChangedBlocks(c, blocks, B);
      assert r[1..] == ChangedBlocks(c, blocks[1..], B);
      ChangedFullBits(c, blocks[0], B);
      ChangedBlocksBits(c, blocks[1..], B);
      assert Fit([r[0]] + r[1..], B);
      assert r == [r[0]] + r[1..];
    }
  }

  // ----- the range -----

  /** The first block, changed from `first` on; all of it when `first` is its first bit. */
  function FirstChanged(c: Change, w: nat, first: nat, B: nat): nat
    requires first < B
  {
    if first != 0 then ChangedBlock(c, w, first, B - 1, B) else ChangedFull(c, w, B)
  }

  function LastChanged(c: Change, w: nat, last: nat, B: nat): nat
    requires last < B
  {
    if last != B - 1 then ChangedBlock(c, w, 0, last, B) else ChangedFull(c, w, B)
  }

  lemma EndsChangedBits(c: Change, w: nat, j: nat, B: nat)
    requires j < B
    ensures FirstChanged(c, w, j, B) < Pow2(B) && LastChanged(c, w, j, B) < Pow2(B)
    ensures BitsOf(FirstChanged(c, w, j, B), B) == ChangedRange(c, BitsOf(w, B), j, B)
    ensures BitsOf(LastChanged(c, w, j, B), B) == ChangedRange(c, BitsOf(w, B), 0, j + 1)
  {
    hide BitsOf, Pow2, ChangedBlock, ChangedFull;
    ChangedFullBits(c, w, B);
    ChangedBlockBits(c, w, j, B - 1, B);
    ChangedBlockBits(c, w, 0, j, B);
  }

  function RangeBlocks(c: Change, blocks: seq<nat>, k: nat, j: nat, k': nat, j': nat, B: nat): (r: seq<nat>)
    requires k <= k' < |blocks| && j < B && j' < B && (k == k' ==> j <= j')
    ensures |r| == |blocks|
  {
    if k == k' then
      blocks[..k] + [ChangedBlock(c, blocks[k], j, j', B)] + blocks[k + 1..]
    else
      blocks[..k] + [FirstChanged(c, blocks[k], j, B)] + ChangedBlocks(c, blocks[k + 1..k'], B)
      + [LastChanged(c, blocks[k'], j', B)] + blocks[k' + 1..]
  }

  lemma RangeBlocksAre(c: Change, blocks: seq<nat>, r: seq<nat>, k: nat, j: nat, k': nat, j': nat, B: nat)
    requires k < k' < |blocks| == |r| && j < B && j' < B
    requires r[k] == FirstChanged(c, blocks[k], j, B) && r[k'] == LastChanged(c, blocks[k'], j', B)
    requires forall i | k < i < k' :: r[i] == ChangedFull(c, blocks[i], B)
    requires forall i | 0 <= i < |r| && (i < k || k' < i) :: r[i] == blocks[i]
    ensures r == RangeBlocks(c, blocks, k, j, k', j', B)
  {
    hide FirstChanged, LastChanged, ChangedFull, RangeBlocks;
    var s := RangeBlocks(c, blocks, k, j, k', j', B);
    RangeParts(c, blocks, k, j, k', j', B);
    assert r[..k] == blocks[..k] && r[k' + 1..] == blocks[k' + 1..];
    assert r[k + 1..k'] == ChangedBlocks(c, blocks[k + 1..k'], B);
    assert r == r[..k] + [r[k]] + r[k + 1..k'] + [r[k']] + r[k' + 1..];
    assert s == s[..k] + [s[k]] + s[k + 1..k'] + [s[k']] + s[k' + 1..];
  }

  lemma OneBlock(c: Change, blocks: seq<nat>, pos: nat, end: nat, k: nat, j: nat, j': nat, B: nat)
    requires k < |blocks| && j <= j' < B && Fit(blocks, B)
    requires pos == k * B + j && end == k * B + j' + 1 <= |Concat(blocks, B)|
    ensures var r := RangeBlocks(c, blocks, k, j, k, j', B);
            Fit(r, B) && Concat(r, B) == ChangedRange(c, Concat(blocks, B), pos, end)
  {
    hide Concat, BitsOf, Pow2, ChangedBlock;
    var r := RangeBlocks(c, blocks, k, j, k, j', B);
    ChangedBlockBits(c, blocks[k], j, j', B);
    ConcatAround(blocks, k, B);
    ConcatAround(r, k, B);
    assert r[..k] == blocks[..k] && r[k + 1..] == blocks[k + 1..];
    var a, w, z := Concat(blocks[..k], B), BitsOf(blocks[k], B), Concat(blocks[k + 1..], B);
    JoinOne(c, a, w, z, j, j' + 1);
  }

  lemma JoinOne(c: Change, a: bits, w: bits, z: bits, j: nat, e: nat)
    requires j <= e <= |w|
    ensures a + ChangedRange(c, w, j, e) + z == ChangedRange(c, a + w + z, |a| + j, |a| + e)
  {
  }

  lemma ManyBlocks(c: Change, blocks: seq<nat>, pos: nat, end: nat, k: nat, j: nat, k': nat, j': nat, B: nat)
    requires k < k' < |blocks| && j < B && j' < B && Fit(blocks, B)
    requires pos == k * B + j && pos <= end == k' * B + j' + 1 <= |Concat(blocks, B)|
    ensures var r := RangeBlocks(c, blocks, k, j, k', j', B);
            Fit(r, B) && Concat(r, B) == ChangedRange(c, Concat(blocks, B), pos, end)
  {
    hide *;
    var r := RangeBlocks(c, blocks, k, j, k', j', B);
    RangeParts(c, blocks, k, j, k', j', B);
    RangeFits(c, blocks, k, j, k', j', B);
    FiveParts(blocks, k, k', B);
    FiveParts(r, k, k', B);
    EndsChangedBits(c, blocks[k], j, B);
    EndsChangedBits(c, blocks[k'], j', B);
    ChangedBlocksBits(c, blocks[k + 1..k'], B);
    JoinMany(c, Concat(blocks[..k], B), BitsOf(blocks[k], B), Concat(blocks[k + 1..k'], B),
             BitsOf(blocks[k'], B), Concat(blocks[k' + 1..], B), j, j' + 1);
  }

  lemma RangeParts(c: Change, blocks: seq<nat>, k: nat, j: nat, k': nat, j': nat, B: nat)
    requires k < k' < |blocks| && j < B && j' < B
    ensures var r := RangeBlocks(c, blocks, k, j, k', j', B);
            && r[..k] == blocks[..k]
            && r[k] == FirstChanged(c, blocks[k], j, B)
            && r[k + 1..k'] == ChangedBlocks(c, blocks[k + 1..k'], B)
            && r[k'] == LastChanged(c, blocks[k'], j', B)
            && r[k' + 1..] == blocks[k' + 1..]
  {
    hide FirstChanged, LastChanged, ChangedFull, ChangedBlocks;
  }

  lemma RangeFits(c: Change, blocks: seq<nat>, k: nat, j: nat, k': nat, j': nat, B: nat)
    requires k < k' < |blocks| && j < B && j' < B && Fit(blocks, B)
    ensures Fit(RangeBlocks(c, blocks, k, j, k', j', B), B)
  {
    hide FirstChanged, LastChanged, ChangedFull, ChangedBlocks, Pow2, BitsOf, Concat;
    EndsChangedBits(c, blocks[k], j, B);
    EndsChangedBits(c, blocks[k'], j', B);
    ChangedBlocksBits(c, blocks[k + 1..k'], B);
  }

  lemma FiveParts(blocks: seq<nat>, k: nat, k': nat, B: nat)
    requires k < k' < |blocks|
    ensures Concat(blocks, B) ==
            Concat(blocks[..k], B) + BitsOf(blocks[k], B) + Concat(blocks[k + 1..k'], B)
            + BitsOf(blocks[k'], B) + Concat(blocks[k' + 1..], B)
    ensures |Concat(blocks[..k], B)| == k * B
    ensures k' * B == k * B + B + |Concat(blocks[k + 1..k'], B)|
    ensures |blocks| * B == k' * B + B + |Concat(blocks[k' + 1..], B)|
  {
    hide Concat, BitsOf;
    ConcatAround(blocks, k', B);
    var front := blocks[..k'];
    ConcatAround(front, k, B);
    assert front[..k] == blocks[..k] && front[k + 1..] == blocks[k + 1..k'] && front[k] == blocks[k];
    Distribute(k, 1, B);
    Distribute(k + 1, k' - k - 1, B);
    Distribute(k', 1, B);
    Distribute(k' + 1, |blocks| - k' - 1, B);
  }

  lemma JoinMany(c: Change, a: bits, f: bits, m: bits, l: bits, z: bits, j: nat, e: nat)
    requires j <= |f| && e <= |l|
    ensures a + ChangedRange(c, f, j, |f|) + ChangedAll(c, m) + ChangedRange(c, l, 0, e) + z ==
            ChangedRange(c, a + f + m + l + z, |a| + j, |a| + |f| + |m| + e)
  {
    hide ChangedRange, ChangedAll, Changed;
  }

  /** Changing a range block by block changes exactly the bits of the range. */
  lemma RangeExact(c: Change, blocks: seq<nat>, v: bits, pos: nat, len: nat,
                   k: nat, j: nat, k': nat, j': nat, B: nat)
    requires Represents(blocks, B, v) && len > 0 && pos + len <= |v| && j < B && j' < B
    requires pos == k * B + j && pos + len - 1 == k' * B + j'
    ensures k <= k' < |blocks| && (k == k' ==> j <= j')
    ensures Represents(RangeBlocks(c, blocks, k, j, k', j', B), B, ChangedRange(c, v, pos, pos + len))
  {
    hide Concat, Fit, RangeBlocks, ChangedRange, Repeat;
    Ordered(k, j, k', j', B);
    Enough(|v|, B);
    InsideBlocks(k', j', |v|, |blocks|, B);
    if k == k' {
      OneBlock(c, blocks, pos, pos + len, k, j, j', B);
    } else {
      ManyBlocks(c, blocks, pos, pos + len, k, j, k', j', B);
    }
    ChangePadded(c, v, Zeros(|blocks| * B - |v|), pos, pos + len);
  }

  lemma Ordered(k: nat, j: nat, k': nat, j': nat, B: nat)
    requires j < B && j' < B && k * B + j <= k' * B + j'
    ensures k <= k' && (k == k' ==> j <= j')
  {
    if k > k' {
      Distribute(k', 1, B);
      AtLeast(k' + 1, k, B);
    }
  }

  lemma InsideBlocks(k: nat, j: nat, n: nat, m: nat, B: nat)
    requires j < B && k * B + j < n <= m * B
    ensures k < m
  {
    if k >= m {
      AtLeast(m, k, B);
    }
  }

  lemma ChangePadded(c: Change, v: bits, pad: bits, pos: nat, end: nat)
    requires pos <= end <= |v|
    ensures ChangedRange(c, v + pad, pos, end) == ChangedRange(c, v, pos, end) + pad
  {
  }
}

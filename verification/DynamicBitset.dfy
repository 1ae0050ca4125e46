/**
 The bitset: a vector of blocks, updated in place, and the number of bits in use.
 */
module DynamicBitset {
  import opened Bytes
  import opened BitCount
  import opened BitBlock
  import opened BitsetBlocks
  import opened BitsetShift
  import opened BitsetEdit
  import opened BitsetRange
  import opened BitsetQuery
  import opened BitsetMemory
  import BitsetOrder
  import Popcnt
  import Swar

  lemma NothingOr(x: nat, n: nat, B: nat)
    requires x < Pow2(B) && n <= B
    ensures Or(x, Shr(0, n), B) == x == Or(x, Shl(0, n, B), B)
  {
    hide BitsOf, Pow2, Or, Shl, Shr;
    ZeroBits(B);
    ShrBits(0, n, B);
    ShlBits(0, n, B);
    assert Zeros(B)[n..] + Zeros(n) == Zeros(B) == Zeros(n) + Zeros(B)[..B - n];
    OrZeros(x, Shr(0, n), B);
    OrZeros(x, Shl(0, n, B), B);
  }

  lemma OrZeros(x: nat, z: nat, B: nat)
    requires x < Pow2(B) && BitsOf(z, B) == Zeros(B)
    ensures Or(x, z, B) == x
  {
    hide BitsOf, Pow2, Or;
    OrBits(x, z, B);
    assert BitsOf(Or(x, z, B), B) == BitsOf(x, B);
    SameBits(x, Or(x, z, B), B);
  }

  class Bitset {
    const B: nat
    var blocks: seq<nat>
    var size: nat

    ghost predicate Valid()
      reads this
    {
      size <= |blocks| * B && Represents(blocks, B, Concat(blocks, B)[..size])
    }

    ghost function Bits(): (v: bits)
      requires Valid()
      reads this
      ensures |v| == size
    {
      Concat(blocks, B)[..size]
    }

    constructor (width: nat)
      requires width > 0
      ensures Valid() && Bits() == [] && B == width
    {
      B := width;
      blocks := [];
      size := 0;
      new;
      QuotientIs(0, 0, 0, B);
      assert Concat(blocks, B) == [];
    }

    /** Blocks that represent `v` make the bitset hold `v`. */
    lemma Holds(v: bits)
      requires size == |v| && Represents(blocks, B, v)
      ensures Valid() && Bits() == v
    {
      hide Concat, Fit, BlocksRequired;
      assert (v + Zeros(|blocks| * B - |v|))[..size] == v;
    }

    method Sanitize()
      requires B > 0 && |blocks| == BlocksRequired(size, B)
      modifies this`blocks
      ensures blocks == Sanitized(old(blocks), size, B)
    {
      hide Not, Shl, AndWord, AllOnes;
      var shift := size % B;
      if shift > 0 {
        Enough(size, B);
        var last := |blocks| - 1;
        blocks := blocks[last := AndWord(blocks[last], Not(Shl(AllOnes(B), shift, B), B), B)];
      }
    }

    // ----- shifts -----

    method ApplyLeftShift(shift: nat)
      requires B > 0 && Fit(blocks, B) && 0 < shift && shift / B < |blocks|
      modifies this`blocks
      ensures blocks == ShiftedUp(old(blocks), shift, B)
    {
      hide SpillUp, Concat, Pow2, Fit;
      Quotient(shift, B);
      var blocksShift, bitsOffset := shift / B, shift % B;
      ghost var was := blocks;
      if bitsOffset == 0 {
        MoveUp(blocksShift);
      } else {
        SpillBlocksUp(blocksShift, bitsOffset);
      }
      blocks := seq(blocksShift, _ => 0) + blocks[blocksShift..];
      assert blocks == ShiftedUp(was, shift, B);
    }

    method MoveUp(q: nat)
      requires q < |blocks|
      modifies this`blocks
      ensures |blocks| == |old(blocks)|
      ensures blocks[q..] == old(blocks)[..|blocks| - q]
    {
      ghost var was := blocks;
      var i := |blocks|;
      while i > q
        invariant q <= i <= |blocks| == |was|
        invariant forall k | i <= k < |was| :: blocks[k] == was[k - q]
        invariant forall k | 0 <= k < i :: blocks[k] == was[k]
      {
        i := i - 1;
        blocks := blocks[i := blocks[i - q]];
      }
    }

    method SpillBlocksUp(q: nat, r: nat)
      requires q < |blocks| && 0 < r < B && Fit(blocks, B)
      modifies this`blocks
      ensures |blocks| == |old(blocks)|
      ensures blocks[q..] == SpillUp(old(blocks)[..|blocks| - q], 0, r, B)
    {
      hide SpillUp, Or, Shl, Shr, Pow2;
      ghost var was := blocks;
      ghost var up := SpillUp(was[..|was| - q], 0, r, B);
      var i := |blocks| - 1;
      while i > q
        invariant q <= i < |blocks| == |was|
        invariant forall k | i < k < |was| :: blocks[k] == up[k - q]
        invariant forall k | 0 <= k <= i :: blocks[k] == was[k]
      {
        SpillUpAt(was[..|was| - q], 0, r, B, i - q);
        blocks := blocks[i := Or(Shl(blocks[i - q], r, B), Shr(blocks[i - q - 1], B - r), B)];
        i := i - 1;
      }
      SpillUpAt(was[..|was| - q], 0, r, B, 0);
      ShlBits(was[0], r, B);
      NothingOr(Shl(was[0], r, B), B - r, B);
      blocks := blocks[q := Shl(blocks[0], r, B)];
    }

    method ApplyRightShift(shift: nat)
      requires B > 0 && Fit(blocks, B) && 0 < shift && shift / B < |blocks|
      modifies this`blocks
      ensures blocks == ShiftedDown(old(blocks), shift, B)
    {
      hide SpillDown, Concat, Pow2, Fit;
      Quotient(shift, B);
      var blocksShift, bitsOffset := shift / B, shift % B;
      var kept := |blocks| - blocksShift;
      ghost var was := blocks;
      if bitsOffset == 0 {
        MoveDown(blocksShift);
      } else {
        SpillBlocksDown(blocksShift, bitsOffset);
      }
      blocks := blocks[..kept] + seq(blocksShift, _ => 0);
      assert blocks == ShiftedDown(was, shift, B);
    }

    method MoveDown(q: nat)
      requires q < |blocks|
      modifies this`blocks
      ensures |blocks| == |old(blocks)|
      ensures blocks[..|blocks| - q] == old(blocks)[q..]
    {
      ghost var was := blocks;
      var last := |blocks| - q - 1;
      for i := 0 to last + 1
        invariant |blocks| == |was|
        invariant forall k | 0 <= k < i :: blocks[k] == was[k + q]
        invariant forall k | i <= k < |was| :: blocks[k] == was[k]
      {
        blocks := blocks[i := blocks[i + q]];
      }
    }

    method SpillBlocksDown(q: nat, r: nat)
      requires q < |blocks| && 0 < r < B && Fit(blocks, B)
      modifies this`blocks
      ensures |blocks| == |old(blocks)|
      ensures blocks[..|blocks| - q] == SpillDown(old(blocks)[q..], 0, r, B)
    {
      hide SpillDown, Or, Shl, Shr, Pow2;
      ghost var was := blocks;
      ghost var down := SpillDown(was[q..], 0, r, B);
      var last := |blocks| - q - 1;
      for i := 0 to last
        invariant |blocks| == |was|
        invariant forall k | 0 <= k < i :: blocks[k] == down[k]
        invariant forall k | i <= k < |was| :: blocks[k] == was[k]
      {
        SpillDownAt(was[q..], 0, r, B, i);
        blocks := blocks[i := Or(Shr(blocks[i + q], r), Shl(blocks[i + q + 1], B - r, B), B)];
      }
      SpillDownAt(was[q..], 0, r, B, last);
      ghost var top := was[|was| - 1];
      ShrBits(top, r, B);
      NothingOr(Shr(top, r), B - r, B);
      blocks := blocks[last := Shr(blocks[|blocks| - 1], r)];
    }

    /** `reset()`. */
    method Reset()
      requires Valid()
      modifies this`blocks
      ensures Valid() && Bits() == Zeros(size)
    {
      hide Concat;
      blocks := seq(|blocks|, _ => 0);
      ConcatZeros(|blocks|, B);
      assert Zeros(|blocks| * B) == Zeros(size) + Zeros(|blocks| * B - size);
      Holds(Zeros(size));
    }

    /** `operator<<=`: bit `i` moves to `i + shift`, zeros come in at the bottom. */
    method ShiftLeft(shift: nat)
      requires Valid()
      modifies this`blocks
      ensures Valid() && Bits() == (Zeros(shift) + old(Bits()))[..size]
    {
      hide Concat, ShiftedUp, Sanitized, Fit, BlocksRequired;
      ghost var v := Bits();
      if shift != 0 {
        if shift >= size {
          Reset();
          assert (Zeros(shift) + v)[..size] == Zeros(size);
        } else {
          LeftShift(blocks, v, shift, B);
          ShiftedUpBits(blocks, shift, B);
          ApplyLeftShift(shift);
          Sanitize();
          Holds((Zeros(shift) + v)[..size]);
        }
      } else {
        assert (Zeros(0) + v)[..size] == v;
      }
    }

    /** `operator>>=`: bit `i + shift` moves to `i`, zeros come in at the top. */
    method ShiftRight(shift: nat)
      requires Valid()
      modifies this`blocks
      ensures Valid()
      ensures Bits() == if shift >= size then Zeros(size) else old(Bits())[shift..] + Zeros(shift)
    {
      hide Concat, ShiftedDown, Fit, BlocksRequired;
      ghost var v := Bits();
      if shift != 0 {
        if shift >= size {
          Reset();
        } else {
          RightShift(blocks, v, shift, B);
          ApplyRightShift(shift);
          Holds(v[shift..] + Zeros(shift));
        }
      } else {
        assert v[0..] + Zeros(0) == v;
      }
    }

    // ----- size -----

    method Resize(nbits: nat, value: bool)
      requires Valid()
      modifies this
      ensures Valid() && Bits() == Resized(old(Bits()), nbits, value)
    {
      hide Concat, Sanitized, AllOnes, Fit, Or, Shl;
      ghost var v, was := Bits(), blocks;
      if nbits == size {
        assert v == v[..nbits];
        return;
      }
      var oldBlocks, newBlocks := |blocks|, BlocksRequired(nbits, B);
      if nbits < size {
        Shrink(blocks, v, nbits, B);
      } else {
        Grow(blocks, v, nbits, value, B);
      }
      var init := if value then AllOnes(B) else 0;
      ResizeVector(newBlocks, init);
      if value && nbits > size && oldBlocks > 0 {
        var extra := size % B;
        if extra > 0 {
          blocks := blocks[oldBlocks - 1 := Or(blocks[oldBlocks - 1], Shl(init, extra, B), B)];
        }
      }
      assert nbits > size ==>
          blocks == (if value then Filled(was, |v|, B) else was) + seq(newBlocks - oldBlocks, _ => init);
      size := nbits;
      Sanitize();
      Holds(Resized(v, nbits, value));
    }

    /** `std::vector::resize`. */
    method ResizeVector(n: nat, init: nat)
      modifies this`blocks
      ensures blocks == if n <= |old(blocks)| then old(blocks)[..n]
                        else old(blocks) + seq(n - |old(blocks)|, _ => init)
    {
      if n != |blocks| {
        blocks := if n < |blocks| then blocks[..n] else blocks + seq(n - |blocks|, _ => init);
      }
    }

    method Clear()
      requires B > 0
      modifies this
      ensures Valid() && Bits() == []
    {
      blocks, size := [], 0;
      QuotientIs(0, 0, 0, B);
    }

    /** `set(pos, value)`. */
    method Set(pos: nat, value: bool)
      requires Valid() && pos < size
      modifies this`blocks
      ensures Valid() && Bits() == old(Bits())[pos := value]
    {
      hide Concat, Or, Shl, AndWord, Not, Fit, BlocksRequired;
      ghost var v := Bits();
      SetOne(blocks, v, pos, value, B);
      var k, mask := pos / B, Shl(1, pos % B, B);
      if value {
        blocks := blocks[k := Or(blocks[k], mask, B)];
      } else {
        blocks := blocks[k := AndWord(blocks[k], Not(mask, B), B)];
      }
      Holds(v[pos := value]);
    }

    method PushBack(value: bool)
      requires Valid()
      modifies this
      ensures Valid() && Bits() == old(Bits()) + [value]
    {
      hide Concat, Fit, BlocksRequired;
      ghost var v := Bits();
      var newLast := size;
      NextBit(size, B);
      assert |blocks| == BlocksRequired(size, B) by {
        StoredSize();
      }
      if size + 1 <= |blocks| * B {
        PushUnused(blocks, v, B);
        size := size + 1;
        Holds(v + [false]);
        if value {
          Set(newLast, value);
          assert (v + [false])[newLast := true] == v + [true];
        }
      } else {
        PushBlock(blocks, v, value, B);
        size := size + 1;
        blocks := blocks + [if value then 1 else 0];
        Holds(v + [value]);
      }
    }

    lemma StoredSize()
      requires Valid()
      ensures B > 0 && |blocks| == BlocksRequired(size, B) && Represents(blocks, B, Bits())
    {
    }

    method PopBack()
      requires Valid()
      modifies this
      ensures Valid() && Bits() == if old(size) == 0 then [] else old(Bits())[..old(size) - 1]
    {
      hide Concat, Fit, Sanitized;
      ghost var v := Bits();
      if size == 0 {
        return;
      }
      Shrink(blocks, v, size - 1, B);
      size := size - 1;
      var needed := BlocksRequired(size, B);
      if |blocks| > needed {
        PopsOne(size, B);
        blocks := blocks[..|blocks| - 1];
        NothingToClear(blocks, size, B);
      } else {
        assert blocks[..needed] == blocks;
        Sanitize();
      }
      Holds(v[..size]);
    }

    // ----- appending blocks -----

    /** `append(block)`. */
    method AppendBlock(block: nat)
      requires Valid() && block < Pow2(B)
      modifies this
      ensures Valid() && Bits() == old(Bits()) + BitsOf(block, B)
    {
      hide Concat, BitsOf, Fit, Pow2, Or, Shl, Shr, BlocksRequired;
      ghost var v := Bits();
      StoredSize();
      var extra := size % B;
      if extra == 0 {
        OneFits(block, B);
        ConcatOne(block, B);
        AppendAligned(blocks, v, [block], B);
        blocks := blocks + [block];
      } else {
        PendingStart(blocks, v, B);
        var last := |blocks| - 1;
        PendingStep(blocks[..last], blocks[last], extra, B, v, block);
        var full := Or(blocks[last], Shl(block, extra, B), B);
        var carry := Shr(block, B - extra);
        PendingEnd(blocks[..last] + [full], carry, extra, B, v + BitsOf(block, B));
        blocks := blocks[last := full];
        blocks := blocks + [carry];
        assert blocks == old(blocks)[..last] + [full] + [carry];
      }
      size := size + B;
      Holds(v + BitsOf(block, B));
    }

    /** `append(first, last)`. */
    method AppendRange(list: seq<nat>)
      requires Valid() && Fit(list, B)
      modifies this
      ensures Valid() && Bits() == old(Bits()) + Concat(list, B)
    {
      hide Concat, BitsOf, Pow2, Or, Shl, Shr, BlocksRequired, Represents, Pending;
      ghost var v := Bits();
      if list == [] {
        EmptyConcat(B);
        assert v + [] == v;
        return;
      }
      StoredSize();
      var extra := size % B;
      var unused := B - extra;
      if extra == 0 {
        AppendAligned(blocks, v, list, B);
        blocks := blocks + list;
        size := size + |list| * B;
        Holds(v + Concat(list, B));
        return;
      }
      PendingStart(blocks, v, B);
      var last := |blocks| - 1;
      FirstPending(blocks, v, list, extra, B);
      blocks := blocks[last := Or(blocks[last], Shl(list[0], extra, B), B)];
      var block := Shr(list[0], unused);
      assert blocks == old(blocks)[..last] + [blocks[last]];
      for i := 1 to |list|
        invariant size == |v| + (i - 1) * B
        invariant Pending(blocks, block, extra, B, v + Concat(list[..i], B))
      {
        NextPending(blocks, block, extra, B, v, list, i);
        block := Or(block, Shl(list[i], extra, B), B);
        blocks := blocks + [block];
        Distribute(i - 1, 1, B);
        size := size + B;
        block := Shr(list[i], unused);
      }
      assert list[..|list|] == list;
      PendingEnd(blocks, block, extra, B, v + Concat(list, B));
      blocks := blocks + [block];
      Distribute(|list| - 1, 1, B);
      size := size + B;
      Holds(v + Concat(list, B));
    }

    // ----- ranges -----

    /**
     `set(pos, len, value)` and `flip(pos, len)`, which differ in the change only. They
     assert that the last position, `pos + len - 1` in unsigned arithmetic, is in the bitset.
     */
    method ChangeRange(c: Change, pos: nat, len: nat)
      requires Valid() && pos < size && pos + len <= size && (pos > 0 || len > 0)
      modifies this`blocks
      ensures Valid() && Bits() == ChangedRange(c, old(Bits()), pos, pos + len)
    {
      hide Concat, Fit, BlocksRequired, ChangedBlock, ChangedFull, ChangedRange;
      ghost var v, was := Bits(), blocks;
      StoredSize();
      if len == 0 {
        NothingChanged(c, v, pos);
        return;
      }
      var first, last := pos / B, (pos + len - 1) / B;
      var firstBit, lastBit := pos % B, (pos + len - 1) % B;
      Quotient(pos, B);
      Quotient(pos + len - 1, B);
      RangeExact(c, blocks, v, pos, len, first, firstBit, last, lastBit, B);
      if first == last {
        blocks := blocks[first := ChangedBlock(c, blocks[first], firstBit, lastBit, B)];
      } else {
        ChangeBlocks(c, first, firstBit, last, lastBit);
      }
      assert blocks == RangeBlocks(c, was, first, firstBit, last, lastBit, B);
      Holds(ChangedRange(c, v, pos, pos + len));
    }

    method ChangeBlocks(c: Change, first: nat, firstBit: nat, last: nat, lastBit: nat)
      requires first < last < |blocks| && firstBit < B && lastBit < B
      modifies this`blocks
      ensures blocks == RangeBlocks(c, old(blocks), first, firstBit, last, lastBit, B)
    {
      hide ChangedBlock, ChangedFull, RangeBlocks;
      ghost var was := blocks;
      var firstFull, lastFull := first, last;
      if firstBit != 0 {
        firstFull := firstFull + 1;
        blocks := blocks[first := ChangedBlock(c, blocks[first], firstBit, B - 1, B)];
      }
      if lastBit != B - 1 {
        lastFull := lastFull - 1;
        blocks := blocks[last := ChangedBlock(c, blocks[last], 0, lastBit, B)];
      }
      ghost var ends := blocks;
      for i := firstFull to lastFull + 1
        invariant |blocks| == |was|
        invariant forall k | firstFull <= k < i :: blocks[k] == ChangedFull(c, was[k], B)
        invariant forall k | 0 <= k < |was| && !(firstFull <= k < i) :: blocks[k] == ends[k]
      {
        blocks := blocks[i := ChangedFull(c, blocks[i], B)];
      }
      RangeBlocksAre(c, was, blocks, first, firstBit, last, lastBit, B);
    }

    // ----- looking -----

    /** `find_first`; `None` for `npos`. */
    method FindFirst() returns (r: Option<nat>)
      requires Valid()
      ensures r.Some? ==> FirstFrom(Bits(), 0, r.value)
      ensures r.None? ==> NoneOn(Bits(), 0, size)
    {
      StoredSize();
      hide Concat, BitsOf, Pow2, Represents, FirstFrom, NoneOn, BlocksRequired;
      StoredFit(blocks, B, Bits());
      hide Fit;
      var i, j := FindBlock(0);
      if i < |blocks| {
        FoundInBlock(blocks, Bits(), 0, i, j, B);
        return Some(i * B + j);
      }
      NoneInBlocks(blocks, Bits(), 0, B);
      r := None;
    }

    /** The first block from `from` on that is not zero, and the first bit set in it. */
    method FindBlock(from: nat) returns (i: nat, j: nat)
      requires from <= |blocks| && Fit(blocks, B)
      ensures from <= i <= |blocks| && NoneOn(Concat(blocks, B), from * B, i * B)
      ensures i < |blocks| ==> j < B && BitsOf(blocks[i], B)[j]
      ensures i < |blocks| ==> forall k | 0 <= k < j :: !BitsOf(blocks[i], B)[k]
    {
      hide Concat, BitsOf, Pow2, NoneOn;
      i, j := from, 0;
      while i < |blocks|
        invariant from <= i <= |blocks|
        invariant forall k | from <= k < i :: blocks[k] == 0
      {
        if blocks[i] != 0 {
          j := FirstOn(blocks[i], B);
          break;
        }
        i := i + 1;
      }
      ZeroBlocks(blocks, from, i, B);
    }

    /** `find_next`: the first bit that is set after `prev`. */
    method FindNext(prev: nat) returns (r: Option<nat>)
      requires Valid()
      ensures r.Some? ==> FirstFrom(Bits(), prev + 1, r.value)
      ensures r.None? ==> NoneOn(Bits(), prev + 1, size)
    {
      ghost var v := Bits();
      StoredSize();
      hide Concat, BitsOf, Pow2, Represents, FirstFrom, Shr;
      if size == 0 || prev >= size - 1 {
        return None;
      }
      StoredFit(blocks, B, v);
      var firstBit := prev + 1;
      var first, offset := firstBit / B, firstBit % B;
      Quotient(firstBit, B);
      ShiftInRange(firstBit, size, B);
      hide BlocksRequired, NoneOn;
      var shifted := Shr(blocks[first], offset);
      ShrBits(blocks[first], offset, B);
      if shifted != 0 {
        var j := FirstOn(shifted, B);
        ShiftedFound(blocks, v, firstBit, first, offset, j, B);
        return Some(firstBit + j);
      }
      ShiftedNone(blocks, firstBit, first, offset, B);
      var i, j := FindBlock(first + 1);
      NoneAcross(blocks, firstBit, first, offset, i, B);
      if i < |blocks| {
        FoundInBlock(blocks, v, firstBit, i, j, B);
        return Some(i * B + j);
      }
      NoneInBlocks(blocks, v, firstBit, B);
      r := None;
    }

    /** `iterate_bits_on`: calls the visitor, which may ask to stop, on each bit that is set. */
    method IterateBitsOn(visit: nat -> bool) returns (visited: seq<nat>)
      requires Valid()
      ensures visited == Visited(Positions(Bits(), 0), visit)
    {
      ghost var v := Bits();
      visited := [];
      var bit := FindFirst();
      ghost var from := 0;
      hide *;
      while bit.Some?
        invariant from <= size
        invariant bit.Some? ==> FirstFrom(v, from, bit.value)
        invariant bit.None? ==> NoneOn(v, from, size)
        invariant Visited(Positions(v, 0), visit) == visited + Visited(Positions(v, from), visit)
        decreases size - from
      {
        VisitNext(v, from, bit.value, visit, visited);
        visited := visited + [bit.value];
        if !visit(bit.value) {
          return;
        }
        from := bit.value + 1;
        bit := FindNext(bit.value);
      }
      VisitEnd(v, from, visit);
      assert visited + [] == visited;
    }

    /** `count`, block by block. */
    method CountBlocks() returns (count: nat)
      requires Valid()
      ensures count == Count(Bits())
    {
      ghost var v := Bits();
      StoredSize();
      hide Concat, BitsOf, Pow2, Count, BlocksRequired;
      if size == 0 {
        EmptyCount(v);
        return 0;
      }
      Enough(size, B);
      count := 0;
      var last := |blocks| - 1;
      for i := 0 to last
        invariant count == Count(Concat(blocks[..i], B))
      {
        var n := BlockCount(blocks[i], B, B);
        NextCount(blocks, i, B);
        count := count + n;
      }
      NextCount(blocks, last, B);
      assert blocks[..last + 1] == blocks;
      PaddedCount(v, |blocks| * B - size);
      if blocks[last] != 0 {
        var extra := size % B;
        if extra == 0 {
          var n := BlockCount(blocks[last], B, B);
          count := count + n;
        } else {
          var n := BlockCount(blocks[last], extra, B);
          UsedCount(blocks, v, B);
          count := count + n;
        }
      } else {
        ZeroCount(B);
      }
    }

    /** `count`, with libpopcnt on the block memory: exact for every size a 64-bit counter holds. */
    method CountInMemory(bytesPerBlock: nat, flags: Popcnt.Flags) returns (count: nat)
      requires Valid() && B == 8 * bytesPerBlock && size < Swar.WORD
      ensures count == Count(Bits())
    {
      ghost var v := Bits();
      StoredSize();
      hide Concat, BitsOf, Pow2, Count, Popcnt.TotalBits, BlocksRequired, Image, Represents;
      if size == 0 {
        EmptyCount(v);
        return 0;
      }
      var cnt := Popcnt.Popcnt(Image(blocks, bytesPerBlock), flags);
      ImageCounts(blocks, bytesPerBlock, v);
      Popcnt.CountBound(v);
      SmallMod(Count(v), size, Swar.WORD);
      count := cnt;
    }

    // ----- text -----

    /** `to_string`. */
    method ToString(zero: char, one: char) returns (str: string)
      requires Valid()
      ensures str == Text(Bits(), zero, one)
      ensures Parsed(str, one) == Bits() <==> zero != one || forall i | 0 <= i < size :: Bits()[i]
    {
      hide Text, Parsed;
      TextRoundTrip(Bits(), zero, one);
      str := WriteBlocks(zero, one);
    }

    method WriteBlocks(zero: char, one: char) returns (str: string)
      requires Valid()
      ensures str == Text(Bits(), zero, one)
    {
      ghost var v := Bits();
      StoredSize();
      hide Concat, BitsOf, Pow2, Represents, BlocksRequired;
      StoredFit(blocks, B, v);
      var len := size;
      str := seq(len, _ => zero);
      for i := 0 to |blocks|
        invariant |str| == len && Written(str, v, i * B, zero, one)
      {
        Distribute(i, 1, B);
        if blocks[i] == 0 {
          NothingToWrite(blocks, v, i, str, zero, one, B);
        } else {
          var limit := if i * B < len then len - i * B else B;
          str := WriteBlock(str, v, i, limit, zero, one);
        }
      }
      assert len <= |blocks| * B;
    }

    method WriteBlock(text: string, ghost v: bits, i: nat, limit: nat, zero: char, one: char) returns (str: string)
      requires Represents(blocks, B, v) && i < |blocks| && |text| == |v| == size
      requires limit == (if i * B < size then size - i * B else B) && Written(text, v, i * B, zero, one)
      ensures |str| == |v| && Written(str, v, i * B + B, zero, one)
    {
      hide Concat, BitsOf, Pow2, AndWord, Shl, Written, Fit, IsMask;
      BlockStarts(i, |blocks|, size, B);
      hide BlocksRequired, Represents;
      str := text;
      var start, mask := i * B, 1;
      FirstMask(B);
      for bit := 0 to limit
        invariant IsMask(mask, bit, B) && |str| == |v|
        invariant Written(str, v, start + (if bit < B then bit else B), zero, one)
      {
        BitTested(blocks, v, i, start, bit, mask, str, zero, one, B);
        if AndWord(blocks[i], mask, B) != 0 {
          str := str[size - (start + bit + 1) := one];
        }
        NextMask(mask, bit, B);
        mask := Shl(mask, 1, B);
      }
      AllWritten(str, v, start + (if limit < B then limit else B), start + B, zero, one);
    }

    /** `init_from_string`. */
    method InitFromString(str: string, pos: nat, n: nat, zero: char, one: char)
      requires B > 0 && pos < |str|
      requires forall i | pos <= i < |str| && i < pos + n :: str[i] == zero || str[i] == one
      modifies this
      ensures Valid()
      ensures Bits() == Parsed(str[pos..if n <= |str| - pos then pos + n else |str|], one)
      ensures Text(Bits(), zero, one) == str[pos..if n <= |str| - pos then pos + n else |str|]
    {
      ParsedText(str[pos..if n <= |str| - pos then pos + n else |str|], zero, one);
      InitBits(str, pos, if n <= |str| - pos then n else |str| - pos, one);
    }

    method InitBits(str: string, pos: nat, count: nat, one: char)
      requires B > 0 && pos + count <= |str|
      modifies this
      ensures Valid() && Bits() == Parsed(str[pos..pos + count], one)
    {
      hide *;
      ClearTo(count);
      ghost var v := Parsed(str[pos..pos + count], one);
      assert v[..0] + Zeros(count) == Zeros(count);
      for i := 0 to count
        invariant Valid() && size == count
        invariant Bits() == v[..i] + Zeros(count - i)
      {
        var c := str[(pos + count - 1) - i];
        NextParsed(str, pos, count, one, v, i);
        if c == one {
          Set(i, true);
        }
      }
      assert v[..count] + Zeros(0) == v;
    }

    /** `count` bits, all zero. */
    method ClearTo(count: nat)
      requires B > 0
      modifies this
      ensures Valid() && size == count && Bits() == Zeros(count)
    {
      hide Concat;
      size := count;
      blocks := seq(BlocksRequired(count, B), _ => 0);
      Enough(count, B);
      ConcatZeros(|blocks|, B);
      assert Zeros(|blocks| * B) == Zeros(count) + Zeros(|blocks| * B - count);
      Holds(Zeros(count));
    }

    // ----- comparing -----

    /** `operator==`: equal sizes and blocks are equal bits. */
    method Equals(rhs: Bitset) returns (same: bool)
      requires Valid() && rhs.Valid() && B == rhs.B
      ensures same <==> Bits() == rhs.Bits()
    {
      StoredSize();
      rhs.StoredSize();
      hide Concat, Represents;
      same := size == rhs.size && blocks == rhs.blocks;
      if Bits() == rhs.Bits() {
        StoredOnce(blocks, rhs.blocks, B, Bits());
      }
    }

    /** `operator<`. */
    method LessThan(rhs: Bitset) returns (less: bool)
      requires Valid() && rhs.Valid() && B == rhs.B
      ensures less <==> BitsetOrder.Less(Bits(), rhs.Bits())
    {
      StoredSize();
      rhs.StoredSize();
      hide Concat, Represents, BitsetOrder.Less;
      less := BitsetOrder.LessThan(blocks, size, rhs.blocks, rhs.size, B, Bits(), rhs.Bits());
    }
  }

  /** The text of a bitset: the most significant bit comes first. */
  function Text(v: bits, zero: char, one: char): (s: string)
    ensures |s| == |v|
    ensures forall i | 0 <= i < |v| :: s[i] == if v[|v| - 1 - i] then one else zero
  {
    seq(|v|, i requires 0 <= i < |v| => if v[|v| - 1 - i] then one else zero)
  }

  function Parsed(s: string, one: char): (v: bits)
    ensures |v| == |s|
    ensures forall i | 0 <= i < |s| :: v[i] <==> s[|s| - 1 - i] == one
  {
    seq(|s|, i requires 0 <= i < |s| => s[|s| - 1 - i] == one)
  }

  /** Reading the text of a bitset gives the bitset back, as long as the two characters differ. */
  lemma TextRoundTrip(v: bits, zero: char, one: char)
    ensures Parsed(Text(v, zero, one), one) == v <==> zero != one || (forall i | 0 <= i < |v| :: v[i])
  {
    hide Text, Parsed;
    var r := Parsed(Text(v, zero, one), one);
    if zero != one || (forall i | 0 <= i < |v| :: v[i]) {
      assert r == v;
    } else {
      var i :| 0 <= i < |v| && !v[i];
      assert r[i] != v[i];
    }
  }

  lemma ParsedText(s: string, zero: char, one: char)
    requires forall i | 0 <= i < |s| :: s[i] == zero || s[i] == one
    ensures Text(Parsed(s, one), zero, one) == s
  {
    hide Text, Parsed;
    var t := Text(Parsed(s, one), zero, one);
    forall i | 0 <= i < |s|
      ensures t[i] == s[i]
    {
      var k := |s| - 1 - i;
      assert Parsed(s, one)[k] <==> s[|s| - 1 - k] == one;
      assert |s| - 1 - k == i;
      assert t[i] == if Parsed(s, one)[k] then one else zero;
    }
  }

  lemma NextParsed(str: string, pos: nat, n: nat, one: char, v: bits, i: nat)
    requires pos + n <= |str| && v == Parsed(str[pos..pos + n], one) && i < n
    ensures |v| == n && v[i] == (str[pos + n - 1 - i] == one)
    ensures v[..i + 1] + Zeros(n - i - 1) ==
            if v[i] then (v[..i] + Zeros(n - i))[i := true] else v[..i] + Zeros(n - i)
  {
    hide Parsed;
    assert str[pos..pos + n][n - 1 - i] == str[pos + n - 1 - i];
  }

  /** A text of which the bits below `n` have been written. */
  predicate Written(str: string, v: bits, n: nat, zero: char, one: char)
    requires |str| == |v|
  {
    forall q | 0 <= q < |str| :: str[q] == if |v| - 1 - q < n && v[|v| - 1 - q] then one else zero
  }

  lemma WriteBit(str: string, v: bits, n: nat, zero: char, one: char)
    requires |str| == |v| && n < |v| && Written(str, v, n, zero, one)
    ensures Written(if v[n] then str[|v| - 1 - n := one] else str, v, n + 1, zero, one)
  {
  }

  lemma BitTested(blocks: seq<nat>, v: bits, i: nat, start: nat, bit: nat, mask: nat,
                  str: string, zero: char, one: char, B: nat)
    requires Represents(blocks, B, v) && i < |blocks| && start == i * B && IsMask(mask, bit, B)
    requires start + bit < |v| == |str| && Written(str, v, start + (if bit < B then bit else B), zero, one)
    ensures var next := if AndWord(blocks[i], mask, B) != 0 then str[|v| - (start + bit + 1) := one] else str;
            Written(next, v, start + (if bit + 1 < B then bit + 1 else B), zero, one)
  {
    hide BitsOf, AndWord, Written, Represents;
    MaskTest(blocks[i], mask, bit, B);
    if bit < B {
      BitAt(blocks, v, start + bit, i, bit, B);
      WriteBit(str, v, start + bit, zero, one);
    }
  }

  lemma AllWritten(str: string, v: bits, n: nat, m: nat, zero: char, one: char)
    requires |str| == |v| && (n == m || |v| <= n <= m) && Written(str, v, n, zero, one)
    ensures Written(str, v, m, zero, one)
  {
  }

  lemma BitAt(blocks: seq<nat>, v: bits, pos: nat, k: nat, j: nat, B: nat)
    requires Represents(blocks, B, v) && k < |blocks| && j < B && pos == k * B + j
    ensures pos < |v| ==> v[pos] == BitsOf(blocks[k], B)[j]
    ensures pos >= |v| ==> !BitsOf(blocks[k], B)[j]
  {
    hide Concat, BitsOf, Pow2, Fit, BlocksRequired;
    BlockAt(blocks, k, B);
    var c, p := Concat(blocks, B), k * B;
    assert c[p..p + B][j] == c[p + j];
  }

  lemma BlockStarts(i: nat, m: nat, n: nat, B: nat)
    requires B > 0 && i < m == BlocksRequired(n, B)
    ensures i * B < n
  {
    Enough(n, B);
    AtLeast(i, m - 1, B);
    Distribute(m - 1, 1, B);
  }

  lemma NothingToWrite(blocks: seq<nat>, v: bits, i: nat, str: string, zero: char, one: char, B: nat)
    requires Represents(blocks, B, v) && i < |blocks| && blocks[i] == 0 && |str| == |v|
    requires Written(str, v, i * B, zero, one)
    ensures Written(str, v, i * B + B, zero, one)
  {
    hide Concat, BitsOf, Pow2, Fit, BlocksRequired;
    ZeroBits(B);
    var start := i * B;
    forall q | 0 <= q < |str|
      ensures str[q] == if |v| - 1 - q < start + B && v[|v| - 1 - q] then one else zero
    {
      var p := |v| - 1 - q;
      if start <= p < start + B {
        BitAt(blocks, v, p, i, p - start, B);
      }
    }
  }

  /** The positions a visitor sees: all of them, or those up to the first at which it stops. */
  function Visited(s: seq<nat>, visit: nat -> bool): seq<nat> {
    if s == [] then [] else if visit(s[0]) then [s[0]] + Visited(s[1..], visit) else [s[0]]
  }

  lemma VisitedStep(p: nat, rest: seq<nat>, visit: nat -> bool)
    ensures Visited([p] + rest, visit) == if visit(p) then [p] + Visited(rest, visit) else [p]
  {
    assert ([p] + rest)[1..] == rest;
  }

  lemma VisitNext(v: bits, from: nat, p: nat, visit: nat -> bool, visited: seq<nat>)
    requires FirstFrom(v, from, p)
    ensures from <= p < |v|
    ensures visited + Visited(Positions(v, from), visit) ==
            if visit(p) then (visited + [p]) + Visited(Positions(v, p + 1), visit) else visited + [p]
  {
    hide Positions, Visited, NoneOn;
    PositionsFirst(v, from, p);
    VisitedStep(p, Positions(v, p + 1), visit);
    if visit(p) {
      var rest := Visited(Positions(v, p + 1), visit);
      assert visited + ([p] + rest) == (visited + [p]) + rest;
    }
  }

  lemma VisitEnd(v: bits, from: nat, visit: nat -> bool)
    requires NoneOn(v, from, |v|)
    ensures Visited(Positions(v, from), visit) == []
  {
    PositionsNone(v, from);
  }

  lemma {:induction false} VisitedAll(s: seq<nat>, visit: nat -> bool)
    requires forall p | p in s :: visit(p)
    ensures Visited(s, visit) == s
  {
    if s != [] {
      VisitedAll(s[1..], visit);
      assert s == [s[0]] + s[1..];
    }
  }

  lemma StoredFit(blocks: seq<nat>, B: nat, v: bits)
    requires Represents(blocks, B, v)
    ensures Fit(blocks, B) && B > 0
  {
  }

  lemma ShiftedFound(blocks: seq<nat>, v: bits, from: nat, k: nat, offset: nat, j: nat, B: nat)
    requires Represents(blocks, B, v) && k < |blocks| && offset < B && from == k * B + offset && j < B
    requires var x := BitsOf(Shr(blocks[k], offset), B);
             && x == BitsOf(blocks[k], B)[offset..] + Zeros(offset)
             && x[j] && forall i | 0 <= i < j :: !x[i]
    ensures FirstFrom(v, from, from + j)
  {
    var w := BitsOf(blocks[k], B);
    var x := BitsOf(Shr(blocks[k], offset), B);
    hide Concat, BitsOf, Pow2, Represents, FirstFrom, Shr;
    assert offset + j < B && w[offset + j];
    forall i | 0 <= i < offset + j && from <= k * B + i
      ensures !w[i]
    {
      assert x[i - offset] == w[i];
    }
    FoundInBlock(blocks, v, from, k, offset + j, B);
  }

  lemma ShiftedNone(blocks: seq<nat>, from: nat, k: nat, offset: nat, B: nat)
    requires k < |blocks| && offset < B && from == k * B + offset && Shr(blocks[k], offset) == 0
    requires blocks[k] < Pow2(B)
    ensures NoneOn(Concat(blocks, B), from, (k + 1) * B)
  {
    hide Concat, BitsOf, Pow2, Shr;
    ShrBits(blocks[k], offset, B);
    ZeroBits(B);
    BlockAt(blocks, k, B);
    Distribute(k, 1, B);
    var c, w, p := Concat(blocks, B), BitsOf(blocks[k], B), k * B;
    forall q | from <= q < p + B && q < |c|
      ensures !c[q]
    {
      assert c[q] == c[p..p + B][q - p] == w[q - p] == (w[offset..] + Zeros(offset))[q - from];
    }
  }

  lemma NoneAcross(blocks: seq<nat>, from: nat, k: nat, offset: nat, i: nat, B: nat)
    requires from == k * B + offset && offset < B && k < i
    requires NoneOn(Concat(blocks, B), from, (k + 1) * B) && NoneOn(Concat(blocks, B), (k + 1) * B, i * B)
    ensures from <= i * B && NoneOn(Concat(blocks, B), from, i * B)
  {
    hide Concat;
    Distribute(k, 1, B);
    AtLeast(k + 1, i, B);
  }

  lemma EmptyCount(v: bits)
    requires v == []
    ensures Count(v) == 0
  {
  }

  lemma NextCount(blocks: seq<nat>, i: nat, B: nat)
    requires i < |blocks|
    ensures Count(Concat(blocks[..i + 1], B)) == Count(Concat(blocks[..i], B)) + Count(BitsOf(blocks[i], B)[..B])
    ensures BitsOf(blocks[i], B)[..B] == BitsOf(blocks[i], B)
  {
    hide Concat, BitsOf, Count;
    assert blocks[..i + 1] == blocks[..i] + [blocks[i]];
    ConcatLast(blocks[..i], blocks[i], B);
    CountConcat(Concat(blocks[..i], B), BitsOf(blocks[i], B));
    assert BitsOf(blocks[i], B)[..B] == BitsOf(blocks[i], B);
  }

  lemma UsedCount(blocks: seq<nat>, v: bits, B: nat)
    requires Represents(blocks, B, v) && |v| % B > 0
    ensures |blocks| > 0
    ensures var w := BitsOf(blocks[|blocks| - 1], B);
            Count(w[..|v| % B]) == Count(w)
  {
    hide Concat, BitsOf, Count;
    LastBlock(blocks, v, B);
    var r, w := |v| % B, BitsOf(blocks[|blocks| - 1], B);
    assert w == w[..r] + Zeros(B - r);
    PaddedCount(w[..r], B - r);
  }

  lemma ZeroCount(B: nat)
    ensures Count(BitsOf(0, B)) == 0
  {
    ZeroBits(B);
    NoneCounted(BitsOf(0, B));
  }

  lemma NothingChanged(c: Change, v: bits, pos: nat)
    requires pos <= |v|
    ensures ChangedRange(c, v, pos, pos) == v
  {
    assert v == v[..pos] + [] + v[pos..];
  }

  lemma PopsOne(n: nat, B: nat)
    requires B > 0 && BlocksRequired(n + 1, B) > BlocksRequired(n, B)
    ensures BlocksRequired(n + 1, B) == BlocksRequired(n, B) + 1 && n % B == 0
  {
    NextBit(n, B);
  }

  lemma NothingToClear(blocks: seq<nat>, n: nat, B: nat)
    requires B > 0 && |blocks| == BlocksRequired(n, B) && n % B == 0
    ensures Sanitized(blocks, n, B) == blocks
  {
  }

  lemma OneFits(w: nat, B: nat)
    requires w < Pow2(B)
    ensures Fit([w], B)
  {
  }

  lemma EmptyConcat(B: nat)
    ensures Concat([], B) == []
  {
  }

  lemma FirstPending(blocks: seq<nat>, v: bits, list: seq<nat>, extra: nat, B: nat)
    requires |blocks| > 0 && list != [] && Fit(list, B)
    requires Pending(blocks[..|blocks| - 1], blocks[|blocks| - 1], extra, B, v)
    ensures var last := |blocks| - 1;
            var full := Or(blocks[last], Shl(list[0], extra, B), B);
            Pending(blocks[..last] + [full], Shr(list[0], B - extra), extra, B, v + Concat(list[..1], B))
  {
    hide Concat, Pending, Pow2, BitsOf, Or, Shl, Shr;
    var last := |blocks| - 1;
    PendingStep(blocks[..last], blocks[last], extra, B, v, list[0]);
    assert list[..1] == [list[0]];
    ConcatOne(list[0], B);
  }

  lemma NextPending(done: seq<nat>, block: nat, extra: nat, B: nat, v: bits, list: seq<nat>, i: nat)
    requires 0 < i < |list| && Fit(list, B)
    requires Pending(done, block, extra, B, v + Concat(list[..i], B))
    ensures Pending(done + [Or(block, Shl(list[i], extra, B), B)], Shr(list[i], B - extra), extra, B,
                    v + Concat(list[..i + 1], B))
  {
    hide Concat, Pending, Pow2, BitsOf, Or, Shl, Shr;
    PendingStep(done, block, extra, B, v + Concat(list[..i], B), list[i]);
    assert list[..i + 1] == list[..i] + [list[i]];
    ConcatLast(list[..i], list[i], B);
    assert (v + Concat(list[..i], B)) + BitsOf(list[i], B) == v + Concat(list[..i + 1], B);
  }
}

/**
 Changes of a bitset and what they make of its blocks: growing, shrinking, appending
 bits and blocks at any alignment, and assigning one bit.
 */
module BitsetEdit {
  import opened BitCount
  import opened BitBlock
  import opened BitsetBlocks
  import opened BitsetShift

  // ----- size -----

  function Resized(v: bits, n: nat, value: bool): (r: bits)
    ensures |r| == n
  {
    if n <= |v| then v[..n] else v + Repeat(value, n - |v|)
  }

  lemma FewerBlocks(m: nat, n: nat, B: nat)
    requires B > 0 && m <= n
    ensures BlocksRequired(m, B) <= BlocksRequired(n, B)
  {
    if m < n && m % B > 0 {
      Quotient(m, B);
      ShiftInRange(m, n, B);
    } else if m < n {
      Quotient(m, B);
      ShiftInRange(m, n, B);
    }
  }

  /** Dropping the blocks past the new end and clearing the bits past it. */
  lemma Shrink(blocks: seq<nat>, v: bits, n: nat, B: nat)
    requires Represents(blocks, B, v) && n <= |v|
    ensures BlocksRequired(n, B) <= |blocks|
    ensures Represents(Sanitized(blocks[..BlocksRequired(n, B)], n, B), B, v[..n])
  {
    hide Concat, Sanitized, BitsOf, Pow2;
    FewerBlocks(n, |v|, B);
    var k := BlocksRequired(n, B);
    SanitizedRepresents(blocks[..k], n, B);
    assert blocks == blocks[..k] + blocks[k..];
    ConcatAppend(blocks[..k], blocks[k..], B);
    PrefixOfPrefix(Concat(blocks[..k], B), Concat(blocks[k..], B), v, Zeros(|blocks| * B - |v|), n);
  }

  lemma PrefixOfPrefix(a: bits, b: bits, v: bits, pad: bits, n: nat)
    requires a + b == v + pad && n <= |a| && n <= |v|
    ensures a[..n] == v[..n]
  {
    assert a[..n] == (a + b)[..n] && v[..n] == (v + pad)[..n];
  }

  /** The old last block with the bits past the old end set. */
  function Filled(blocks: seq<nat>, n: nat, B: nat): (r: seq<nat>)
    requires B > 0
    ensures |r| == |blocks|
  {
    if |blocks| > 0 && n % B > 0 then
      var last := |blocks| - 1;
      blocks[last := Or(blocks[last], Shl(AllOnes(B), n % B, B), B)]
    else
      blocks
  }

  lemma FilledBlock(w: nat, r: nat, B: nat)
    requires r <= B && w < Pow2(B)
    ensures var c := Or(w, Shl(AllOnes(B), r, B), B);
            c < Pow2(B) && BitsOf(c, B) == BitsOf(w, B)[..r] + Repeat(true, B - r)
  {
    AllOnesBits(B);
    ShlBits(AllOnes(B), r, B);
    OrBits(w, Shl(AllOnes(B), r, B), B);
  }

  /** The bits of the last block: the end of the contents, then zeros. */
  lemma LastBlock(blocks: seq<nat>, v: bits, B: nat)
    requires Represents(blocks, B, v) && |v| % B > 0
    ensures |blocks| > 0 && |v| == (|blocks| - 1) * B + |v| % B
    ensures blocks == blocks[..|blocks| - 1] + [blocks[|blocks| - 1]]
    ensures Concat(blocks[..|blocks| - 1], B) == v[..(|blocks| - 1) * B]
    ensures BitsOf(blocks[|blocks| - 1], B) == v[(|blocks| - 1) * B..] + Zeros(B - |v| % B)
  {
    hide Concat, BitsOf, Pow2;
    Enough(|v|, B);
    var m := |blocks|;
    ConcatLast(blocks[..m - 1], blocks[m - 1], B);
    assert blocks == blocks[..m - 1] + [blocks[m - 1]];
    Distribute(m - 1, 1, B);
    SplitAt(Concat(blocks[..m - 1], B), BitsOf(blocks[m - 1], B), v, Zeros(m * B - |v|));
  }

  lemma SplitAt(a: bits, b: bits, v: bits, pad: bits)
    requires a + b == v + pad && |a| <= |v|
    ensures a == v[..|a|] && b == v[|a|..] + pad
  {
    assert a == (a + b)[..|a|] && b == (a + b)[|a|..];
  }

  lemma FilledBits(blocks: seq<nat>, v: bits, B: nat)
    requires Represents(blocks, B, v)
    ensures Fit(Filled(blocks, |v|, B), B)
    ensures Concat(Filled(blocks, |v|, B), B) == v + Repeat(true, |blocks| * B - |v|)
  {
    hide Concat, BitsOf, Pow2, Or, Shl, AllOnes;
    Enough(|v|, B);
    var m, r := |blocks|, |v| % B;
    if r > 0 {
      LastBlock(blocks, v, B);
      FilledBlock(blocks[m - 1], r, B);
      var full := Filled(blocks, |v|, B);
      assert full == blocks[..m - 1] + [full[m - 1]];
      ConcatLast(blocks[..m - 1], full[m - 1], B);
      Distribute(m - 1, 1, B);
      assert BitsOf(blocks[m - 1], B)[..r] == v[(m - 1) * B..];
      assert v == v[..(m - 1) * B] + v[(m - 1) * B..];
    } else {
      assert v + Repeat(true, 0) == v + Zeros(0);
    }
  }

  /** Growing: whole blocks of the value, the old last block filled with it, the rest cleared. */
  lemma Grow(blocks: seq<nat>, v: bits, n: nat, value: bool, B: nat)
    requires Represents(blocks, B, v) && |v| < n
    ensures |blocks| <= BlocksRequired(n, B)
    ensures var added := seq(BlocksRequired(n, B) - |blocks|, _ => if value then AllOnes(B) else 0);
            var grown := (if value then Filled(blocks, |v|, B) else blocks) + added;
            Represents(Sanitized(grown, n, B), B, Resized(v, n, value))
  {
    hide Concat, Sanitized, BitsOf, Pow2, Filled, AllOnes;
    FewerBlocks(|v|, n, B);
    var m, k := |blocks|, BlocksRequired(n, B);
    var added := seq(k - m, _ => if value then AllOnes(B) else 0);
    var front := if value then Filled(blocks, |v|, B) else blocks;
    if value {
      FilledBits(blocks, v, B);
      assert added == seq(k - m, _ => AllOnes(B));
      ConcatOnes(k - m, B);
      AllOnesBits(B);
    } else {
      assert added == seq(k - m, _ => 0);
      ConcatZeros(k - m, B);
    }
    ConcatAppend(front, added, B);
    SanitizedRepresents(front + added, n, B);
    Distribute(m, k - m, B);
    GrowJoin(v, value, m * B - |v|, (k - m) * B, n);
  }

  lemma GrowJoin(v: bits, value: bool, a: nat, b: nat, n: nat)
    requires |v| <= n <= |v| + a + b
    ensures ((v + Repeat(value, a)) + Repeat(value, b))[..n] == v + Repeat(value, n - |v|)
  {
  }

  // ----- one more bit, one more block -----

  lemma NextBit(n: nat, B: nat)
    requires B > 0
    ensures n % B == 0 ==> BlocksRequired(n + 1, B) == BlocksRequired(n, B) + 1
    ensures n % B > 0 ==> BlocksRequired(n + 1, B) == BlocksRequired(n, B)
    ensures n % B == 0 <==> n + 1 > BlocksRequired(n, B) * B
  {
    Quotient(n, B);
    Enough(n, B);
    Distribute(n / B, 1, B);
    if n % B + 1 < B {
      QuotientIs(n + 1, n / B, n % B + 1, B);
    } else {
      QuotientIs(n + 1, n / B + 1, 0, B);
    }
  }

  lemma {:induction false} OneBits(value: bool, B: nat)
    requires B > 0
    ensures (if value then 1 else 0) < Pow2(B)
    ensures BitsOf(if value then 1 else 0, B) == [value] + Zeros(B - 1)
  {
    ZeroBits(B - 1);
    assert Pow2(B) == 2 * Pow2(B - 1);
  }

  lemma PushBlock(blocks: seq<nat>, v: bits, value: bool, B: nat)
    requires Represents(blocks, B, v) && |v| % B == 0
    ensures Represents(blocks + [if value then 1 else 0], B, v + [value])
  {
    hide Concat, BitsOf, Pow2;
    var w := if value then 1 else 0;
    NextBit(|v|, B);
    Enough(|v|, B);
    Enough(|v| + 1, B);
    OneBits(value, B);
    ConcatLast(blocks, w, B);
    Distribute(|blocks|, 1, B);
    assert v + Zeros(0) == v;
    assert v + ([value] + Zeros(B - 1)) == (v + [value]) + Zeros(B - 1);
  }

  lemma PushUnused(blocks: seq<nat>, v: bits, B: nat)
    requires Represents(blocks, B, v) && |v| % B > 0
    ensures Represents(blocks, B, v + [false])
  {
    hide Concat, BitsOf, Pow2;
    NextBit(|v|, B);
    var pad := |blocks| * B - |v|;
    assert Zeros(pad) == [false] + Zeros(pad - 1);
    assert v + ([false] + Zeros(pad - 1)) == (v + [false]) + Zeros(pad - 1);
  }

  lemma WholeBlocks(q: nat, B: nat)
    requires B > 0
    ensures BlocksRequired(q * B, B) == q
  {
    QuotientIs(q * B, q, 0, B);
  }

  lemma AppendAligned(blocks: seq<nat>, v: bits, list: seq<nat>, B: nat)
    requires Represents(blocks, B, v) && |v| % B == 0 && Fit(list, B)
    ensures Represents(blocks + list, B, v + Concat(list, B))
  {
    hide Concat, BitsOf, Pow2;
    Enough(|v|, B);
    Distribute(|blocks|, |list|, B);
    WholeBlocks(|blocks + list|, B);
    ConcatAppend(blocks, list, B);
    assert v + Zeros(0) == v;
    assert (v + Concat(list, B)) + Zeros(0) == v + Concat(list, B);
  }

  /** A state of appending: whole blocks, and a block of which `extra` bits count. */
  predicate Pending(done: seq<nat>, block: nat, extra: nat, B: nat, v: bits) {
    && extra < B
    && Fit(done, B)
    && block < Pow2(B)
    && |v| == |done| * B + extra
    && Concat(done, B) == v[..|done| * B]
    && BitsOf(block, B) == v[|done| * B..] + Zeros(B - extra)
  }

  lemma PendingStart(blocks: seq<nat>, v: bits, B: nat)
    requires Represents(blocks, B, v) && |v| % B > 0
    ensures |blocks| > 0 && Pending(blocks[..|blocks| - 1], blocks[|blocks| - 1], |v| % B, B, v)
  {
    LastBlock(blocks, v, B);
  }

  lemma PendingEnd(done: seq<nat>, block: nat, extra: nat, B: nat, v: bits)
    requires Pending(done, block, extra, B, v) && extra > 0
    ensures Represents(done + [block], B, v)
  {
    hide Concat, BitsOf, Pow2;
    QuotientIs(|v|, |done|, extra, B);
    Distribute(|done|, 1, B);
    ConcatLast(done, block, B);
    var n := |done| * B;
    assert v[..n] + (v[n..] + Zeros(B - extra)) == v + Zeros(B - extra);
  }

  lemma PendingStep(done: seq<nat>, block: nat, extra: nat, B: nat, v: bits, next: nat)
    requires Pending(done, block, extra, B, v) && next < Pow2(B)
    ensures var full := Or(block, Shl(next, extra, B), B);
            Pending(done + [full], Shr(next, B - extra), extra, B, v + BitsOf(next, B))
  {
    hide Concat, Pow2, BitsOf;
    var full := Or(block, Shl(next, extra, B), B);
    var x := BitsOf(next, B);
    ShlBits(next, extra, B);
    OrBits(block, Shl(next, extra, B), B);
    ShrBits(next, B - extra, B);
    ConcatLast(done, full, B);
    Distribute(|done|, 1, B);
    var n := |done| * B;
    assert BitsOf(full, B) == v[n..] + x[..B - extra];
    assert v[..n] + (v[n..] + x[..B - extra]) == (v + x)[..n + B];
    assert (v + x)[n + B..] == x[B - extra..];
  }

  // ----- one bit -----

  lemma BitBlockMask(j: nat, B: nat)
    requires j < B
    ensures BitsOf(Shl(1, j, B), B) == Zeros(j) + [true] + Zeros(B - j - 1)
  {
    ShlBits(1, j, B);
    OneBits(true, B);
    assert ([true] + Zeros(B - 1))[..B - j] == [true] + Zeros(B - j - 1);
  }

  function WithBit(w: nat, j: nat, value: bool, B: nat): nat {
    if value then Or(w, Shl(1, j, B), B) else AndWord(w, Not(Shl(1, j, B), B), B)
  }

  lemma WithBitBits(w: nat, j: nat, value: bool, B: nat)
    requires j < B
    ensures WithBit(w, j, value, B) < Pow2(B)
    ensures BitsOf(WithBit(w, j, value, B), B) == BitsOf(w, B)[j := value]
  {
    hide BitsOf, Pow2, Shl;
    BitBlockMask(j, B);
    OrBits(w, Shl(1, j, B), B);
    NotBits(Shl(1, j, B), B);
    AndBits(w, Not(Shl(1, j, B), B), B);
  }

  lemma SetOne(blocks: seq<nat>, v: bits, pos: nat, value: bool, B: nat)
    requires Represents(blocks, B, v) && pos < |v|
    ensures pos / B < |blocks|
    ensures Represents(blocks[pos / B := WithBit(blocks[pos / B], pos % B, value, B)], B, v[pos := value])
  {
    ShiftInRange(pos, |v|, B);
    Quotient(pos, B);
    SetOneAt(blocks, v, pos, pos / B, pos % B, value, B);
  }

  lemma SetOneAt(blocks: seq<nat>, v: bits, pos: nat, k: nat, j: nat, value: bool, B: nat)
    requires Represents(blocks, B, v) && pos < |v| && k < |blocks| && j < B && pos == k * B + j
    ensures Represents(blocks[k := WithBit(blocks[k], j, value, B)], B, v[pos := value])
  {
    hide Concat, BitsOf, Pow2, WithBit;
    var w := blocks[k];
    WithBitBits(w, j, value, B);
    var changed := blocks[k := WithBit(w, j, value, B)];
    ConcatAround(blocks, k, B);
    ConcatAround(changed, k, B);
    assert changed[..k] == blocks[..k] && changed[k + 1..] == blocks[k + 1..];
    SetJoin(Concat(blocks[..k], B), BitsOf(w, B), Concat(blocks[k + 1..], B), j, value,
            v, Zeros(|blocks| * B - |v|));
  }

  lemma SetJoin(a: bits, w: bits, z: bits, j: nat, value: bool, v: bits, pad: bits)
    requires a + w + z == v + pad && j < |w| && |a| + j < |v|
    ensures a + w[j := value] + z == v[|a| + j := value] + pad
  {
    assert a + w[j := value] + z == (a + w + z)[|a| + j := value];
    assert v[|a| + j := value] + pad == (v + pad)[|a| + j := value];
  }
}

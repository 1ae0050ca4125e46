/**
 Looking at a bitset: which bits are on, in which order, and how many.
 */
module BitsetQuery {
  import opened BitCount
  import opened BitBlock
  import opened BitsetBlocks

  // ----- walking a mask over a block -----

  function OneHot(j: nat, B: nat): (v: bits)
    ensures |v| == B
    ensures forall i | 0 <= i < B :: v[i] <==> i == j
  {
    seq(B, i => i == j)
  }

  predicate IsMask(mask: nat, j: nat, B: nat) {
    mask < Pow2(B) && BitsOf(mask, B) == OneHot(j, B)
  }

  lemma FirstMask(B: nat)
    requires B > 0
    ensures IsMask(1, 0, B)
  {
    ZeroBits(B - 1);
    assert Pow2(B) == 2 * Pow2(B - 1);
    assert BitsOf(1, B) == [true] + Zeros(B - 1);
  }

  /** Past the top of the block the mask is zero. */
  lemma NextMask(mask: nat, j: nat, B: nat)
    requires IsMask(mask, j, B) && B > 0
    ensures IsMask(Shl(mask, 1, B), j + 1, B)
  {
    hide BitsOf, Pow2;
    ShlBits(mask, 1, B);
  }

  lemma ZeroBlock(w: nat, B: nat)
    requires w < Pow2(B)
    ensures w == 0 <==> BitsOf(w, B) == Zeros(B)
  {
    ZeroBits(B);
    if BitsOf(w, B) == Zeros(B) {
      SameBits(w, 0, B);
    }
  }

  lemma MaskTest(w: nat, mask: nat, j: nat, B: nat)
    requires IsMask(mask, j, B)
    ensures AndWord(w, mask, B) != 0 <==> j < B && BitsOf(w, B)[j]
  {
    hide BitsOf, Pow2, AndWord;
    AndBits(w, mask, B);
    var x := AndWord(w, mask, B);
    ZeroBlock(x, B);
    if j < B && BitsOf(w, B)[j] {
      assert BitsOf(x, B)[j];
    } else {
      assert BitsOf(x, B) == Zeros(B);
    }
  }

  /** `first_on`: the lowest bit that is set. */
  method FirstOn(w: nat, B: nat) returns (r: nat)
    requires 0 < w < Pow2(B)
    ensures r < B && BitsOf(w, B)[r]
    ensures forall j | 0 <= j < r :: !BitsOf(w, B)[j]
  {
    hide BitsOf, Pow2, Shl, AndWord;
    ghost var on := SomeOn(w, B);
    FirstMask(B);
    var mask := 1;
    for i := 0 to B
      invariant IsMask(mask, i, B) && i <= on
      invariant forall j | 0 <= j < i :: !BitsOf(w, B)[j]
    {
      MaskTest(w, mask, i, B);
      if AndWord(w, mask, B) != 0 {
        return i;
      }
      NextMask(mask, i, B);
      mask := Shl(mask, 1, B);
    }
    assert false;
  }

  lemma SomeOn(w: nat, B: nat) returns (j: nat)
    requires 0 < w < Pow2(B)
    ensures j < B && BitsOf(w, B)[j]
  {
    ZeroBlock(w, B);
    j :| j < B && BitsOf(w, B)[j];
  }

  lemma PositiveWidth(w: nat, B: nat)
    requires 0 < w < Pow2(B)
    ensures B > 0
  {
  }

  /** `block_count`: the bits that are set among the first `n`. */
  method BlockCount(w: nat, n: nat, B: nat) returns (count: nat)
    requires w < Pow2(B) && n <= B
    ensures count == Count(BitsOf(w, B)[..n])
  {
    if w == 0 {
      ZeroBits(B);
      NoneCounted(BitsOf(w, B)[..n]);
      return 0;
    }
    hide BitsOf, Pow2, Shl, AndWord;
    count := 0;
    var mask := 1;
    PositiveWidth(w, B);
    FirstMask(B);
    var v := BitsOf(w, B);
    for i := 0 to n
      invariant IsMask(mask, i, B)
      invariant count == Count(v[..i])
    {
      MaskTest(w, mask, i, B);
      CountNext(v, i);
      if AndWord(w, mask, B) != 0 {
        count := count + 1;
      }
      NextMask(mask, i, B);
      mask := Shl(mask, 1, B);
    }
  }

  lemma CountNext(v: bits, i: nat)
    requires i < |v|
    ensures Count(v[..i + 1]) == Count(v[..i]) + if v[i] then 1 else 0
  {
    assert v[..i + 1] == v[..i] + [v[i]];
    CountConcat(v[..i], [v[i]]);
    assert [v[i]][1..] == [];
  }

  // ----- positions -----

  predicate NoneOn(v: bits, from: nat, to: nat) {
    forall q | from <= q < to && q < |v| :: !v[q]
  }

  /** `p` is the first bit that is set, counting from `from`. */
  predicate FirstFrom(v: bits, from: nat, p: nat) {
    from <= p < |v| && v[p] && NoneOn(v, from, p)
  }

  /** The positions of the bits that are set, in ascending order. */
  function Positions(v: bits, from: nat): seq<nat>
    decreases |v| - from
  {
    if from >= |v| then [] else (if v[from] then [from] else []) + Positions(v, from + 1)
  }

  lemma {:induction false} PositionsNone(v: bits, from: nat)
    requires NoneOn(v, from, |v|)
    ensures Positions(v, from) == []
    decreases |v| - from
  {
    if from < |v| {
      PositionsNone(v, from + 1);
    }
  }

  lemma {:induction false} PositionsFirst(v: bits, from: nat, p: nat)
    requires FirstFrom(v, from, p)
    ensures Positions(v, from) == [p] + Positions(v, p + 1)
    decreases p - from
  {
    if from < p {
      PositionsFirst(v, from + 1, p);
    }
  }

  /** Every bit that is set is listed, and nothing else is. */
  lemma {:induction false} PositionsExact(v: bits, from: nat, q: nat)
    ensures q in Positions(v, from) <==> from <= q < |v| && v[q]
    decreases |v| - from
  {
    if from < |v| {
      PositionsExact(v, from + 1, q);
    }
  }

  lemma {:induction false} PositionsAscend(v: bits, from: nat)
    ensures forall i | 0 <= i < |Positions(v, from)| :: Positions(v, from)[i] >= from
    ensures forall i, j | 0 <= i < j < |Positions(v, from)| :: Positions(v, from)[i] < Positions(v, from)[j]
    decreases |v| - from
  {
    if from < |v| {
      PositionsAscend(v, from + 1);
    }
  }

  lemma {:induction false} PositionsCount(v: bits, from: nat)
    requires from <= |v|
    ensures |Positions(v, from)| == Count(v[from..])
    decreases |v| - from
  {
    if from < |v| {
      PositionsCount(v, from + 1);
      assert v[from..][1..] == v[from + 1..];
    }
  }

  // ----- blocks and positions -----

  lemma BlockAt(blocks: seq<nat>, k: nat, B: nat)
    requires k < |blocks|
    ensures k * B + B <= |blocks| * B
    ensures Concat(blocks, B)[k * B..k * B + B] == BitsOf(blocks[k], B)
  {
    hide Concat, BitsOf;
    ConcatAround(blocks, k, B);
    Distribute(k, 1, B);
    AtLeast(k + 1, |blocks|, B);
    Middle(Concat(blocks[..k], B), BitsOf(blocks[k], B), Concat(blocks[k + 1..], B));
  }

  lemma Middle(a: bits, w: bits, z: bits)
    ensures (a + w + z)[|a|..|a| + |w|] == w
  {
  }

  lemma {:induction false} ZeroBlocks(blocks: seq<nat>, a: nat, b: nat, B: nat)
    requires a <= b <= |blocks| && forall k | a <= k < b :: blocks[k] == 0
    ensures a * B <= b * B <= |blocks| * B
    ensures NoneOn(Concat(blocks, B), a * B, b * B)
    decreases b - a
  {
    hide Concat, BitsOf;
    AtLeast(a, b, B);
    AtLeast(b, |blocks|, B);
    if a < b {
      ZeroBlocks(blocks, a, b - 1, B);
      BlockAt(blocks, b - 1, B);
      ZeroBits(B);
      Distribute(b - 1, 1, B);
      ExtendNone(Concat(blocks, B), a * B, (b - 1) * B, b * B);
    }
  }

  lemma ExtendNone(v: bits, a: nat, m: nat, b: nat)
    requires NoneOn(v, a, m) && m <= b <= |v| && v[m..b] == Zeros(b - m)
    ensures NoneOn(v, a, b)
  {
    forall q | a <= q < b && q < |v|
      ensures !v[q]
    {
      if q >= m {
        assert v[q] == v[m..b][q - m];
      }
    }
  }

  /** The first bit that is set, found in block `k` behind bits that are not. */
  lemma FoundInBlock(blocks: seq<nat>, v: bits, from: nat, k: nat, j: nat, B: nat)
    requires Represents(blocks, B, v) && k < |blocks| && j < B
    requires from <= k * B + j && NoneOn(Concat(blocks, B), from, k * B)
    requires BitsOf(blocks[k], B)[j]
    requires forall i | 0 <= i < j && from <= k * B + i :: !BitsOf(blocks[k], B)[i]
    ensures FirstFrom(v, from, k * B + j)
  {
    hide BitsOf, Pow2, Fit, BlocksRequired;
    BlockAt(blocks, k, B);
    var c := Concat(blocks, B);
    var p := k * B;
    hide Concat;
    assert c[p + j] == c[p..p + B][j];
    assert c == v + Zeros(|blocks| * B - |v|);
    forall q | from <= q < p + j && q < |v|
      ensures !v[q]
    {
      assert v[q] == c[q];
      if q >= p {
        assert c[q] == c[p..p + B][q - p];
      }
    }
  }

  lemma NoneInBlocks(blocks: seq<nat>, v: bits, from: nat, B: nat)
    requires Represents(blocks, B, v) && NoneOn(Concat(blocks, B), from, |blocks| * B)
    ensures NoneOn(v, from, |v|)
  {
    hide Concat, BitsOf, Pow2, Fit, BlocksRequired;
    var c := Concat(blocks, B);
    forall q | from <= q < |v|
      ensures !v[q]
    {
      assert v[q] == c[q];
    }
  }
}

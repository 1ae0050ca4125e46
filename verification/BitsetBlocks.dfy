/**
 What a vector of blocks stands for: its bits one block after another, least significant
 first. `Represents` is the consistency check of the bitset: the vector has just enough
 blocks for the bits, and the bits of the last block that are not used are zero.
 */
module BitsetBlocks {
  import opened BitCount
  import opened BitBlock

  function Concat(blocks: seq<nat>, B: nat): (v: bits)
    ensures |v| == |blocks| * B
  {
    if blocks == [] then
      assert 0 * B == 0;
      []
    else
      assert |blocks| * B == B + |blocks[1..]| * B;
      BitsOf(blocks[0], B) + Concat(blocks[1..], B)
  }

  predicate Fit(blocks: seq<nat>, B: nat) {
    forall k | 0 <= k < |blocks| :: blocks[k] < Pow2(B)
  }

  function BlocksRequired(n: nat, B: nat): nat
    requires B > 0
  {
    n / B + (if n % B > 0 then 1 else 0)
  }

  predicate Represents(blocks: seq<nat>, B: nat, v: bits) {
    && B > 0
    && Fit(blocks, B)
    && |blocks| == BlocksRequired(|v|, B)
    && |v| <= |blocks| * B
    && Concat(blocks, B) == v + Zeros(|blocks| * B - |v|)
  }

  // ----- arithmetic of positions -----

  lemma Quotient(n: nat, B: nat)
    requires B > 0
    ensures n == n / B * B + n % B && n % B < B && n / B >= 0
  {
  }

  lemma Distribute(a: nat, b: nat, B: nat)
    ensures (a + b) * B == a * B + b * B
  {
  }

  lemma AtLeast(a: nat, b: nat, B: nat)
    requires a <= b
    ensures a * B <= b * B
  {
    Distribute(a, b - a, B);
  }

  /** A quotient is known by what it leaves. */
  lemma QuotientIs(n: nat, q: nat, r: nat, B: nat)
    requires r < B && n == q * B + r
    ensures n / B == q && n % B == r
  {
    Quotient(n, B);
    if n / B < q {
      AtLeast(n / B + 1, q, B);
      Distribute(n / B, 1, B);
    } else if n / B > q {
      AtLeast(q + 1, n / B, B);
      Distribute(q, 1, B);
    }
  }

  lemma Enough(n: nat, B: nat)
    requires B > 0
    ensures n <= BlocksRequired(n, B) * B
    ensures n % B > 0 ==> BlocksRequired(n, B) > 0 && n == (BlocksRequired(n, B) - 1) * B + n % B
    ensures n % B == 0 ==> n == BlocksRequired(n, B) * B
  {
    Quotient(n, B);
    Distribute(n / B, 1, B);
  }

  // ----- vectors put together and taken apart -----

  lemma {:induction false} ConcatAppend(a: seq<nat>, b: seq<nat>, B: nat)
    ensures Concat(a + b, B) == Concat(a, B) + Concat(b, B)
  {
    if a == [] {
      assert a + b == b;
      assert Concat(a, B) == [];
    } else {
      assert (a + b)[1..] == a[1..] + b;
      ConcatAppend(a[1..], b, B);
    }
  }

  lemma ConcatOne(w: nat, B: nat)
    ensures Concat([w], B) == BitsOf(w, B)
  {
    assert [w][1..] == [];
    assert Concat([w][1..], B) == [];
  }

  /** The bits around block `k`. */
  lemma ConcatAround(blocks: seq<nat>, k: nat, B: nat)
    requires k < |blocks|
    ensures Concat(blocks, B) == Concat(blocks[..k], B) + BitsOf(blocks[k], B) + Concat(blocks[k + 1..], B)
  {
    assert blocks == blocks[..k] + [blocks[k]] + blocks[k + 1..];
    ConcatAppend(blocks[..k] + [blocks[k]], blocks[k + 1..], B);
    ConcatAppend(blocks[..k], [blocks[k]], B);
    ConcatOne(blocks[k], B);
  }

  lemma ConcatLast(blocks: seq<nat>, w: nat, B: nat)
    ensures Concat(blocks + [w], B) == Concat(blocks, B) + BitsOf(w, B)
  {
    ConcatAppend(blocks, [w], B);
    ConcatOne(w, B);
  }

  lemma {:induction false} ConcatZeros(m: nat, B: nat)
    ensures Concat(seq(m, _ => 0), B) == Zeros(m * B)
  {
    var z := seq(m, _ => 0);
    if m > 0 {
      assert z[1..] == seq(m - 1, _ => 0);
      ConcatZeros(m - 1, B);
      ZeroBits(B);
      Distribute(m - 1, 1, B);
      assert Zeros(m * B) == Zeros(B) + Zeros((m - 1) * B);
    }
  }

  lemma {:induction false} ConcatOnes(m: nat, B: nat)
    ensures Concat(seq(m, _ => AllOnes(B)), B) == Repeat(true, m * B)
  {
    var z := seq(m, _ => AllOnes(B));
    if m > 0 {
      assert z[1..] == seq(m - 1, _ => AllOnes(B));
      ConcatOnes(m - 1, B);
      AllOnesBits(B);
      Distribute(m - 1, 1, B);
      assert Repeat(true, m * B) == Repeat(true, B) + Repeat(true, (m - 1) * B);
    }
  }

  /** Equal contents are stored as equal blocks. */
  lemma {:induction false} ConcatInjective(a: seq<nat>, b: seq<nat>, B: nat)
    requires |a| == |b| && Fit(a, B) && Fit(b, B) && Concat(a, B) == Concat(b, B)
    ensures a == b
  {
    if a != [] {
      assert BitsOf(a[0], B) == Concat(a, B)[..B] == Concat(b, B)[..B] == BitsOf(b[0], B);
      assert Concat(a[1..], B) == Concat(a, B)[B..] == Concat(b, B)[B..] == Concat(b[1..], B);
      SameBits(a[0], b[0], B);
      ConcatInjective(a[1..], b[1..], B);
    }
  }

  lemma StoredOnce(a: seq<nat>, b: seq<nat>, B: nat, v: bits)
    requires Represents(a, B, v) && Represents(b, B, v)
    ensures a == b
  {
    ConcatInjective(a, b, B);
  }

  // ----- shifts over block boundaries -----

  /** Blocks moved up by `r` bits, the low bits taken from the block below, `carry` at first. */
  function SpillUp(b: seq<nat>, carry: nat, r: nat, B: nat): (s: seq<nat>)
    requires r <= B
    ensures |s| == |b|
  {
    if b == [] then []
    else [Or(Shl(b[0], r, B), Shr(carry, B - r), B)] + SpillUp(b[1..], b[0], r, B)
  }

  lemma SpillUpBlock(w: nat, carry: nat, r: nat, B: nat)
    requires r <= B && w < Pow2(B) && carry < Pow2(B)
    ensures var s := Or(Shl(w, r, B), Shr(carry, B - r), B);
            && s < Pow2(B)
            && BitsOf(s, B) == BitsOf(carry, B)[B - r..] + BitsOf(w, B)[..B - r]
  {
    hide BitsOf, Pow2, Or, Shl, Shr, Repeat;
    ShlBits(w, r, B);
    ShrBits(carry, B - r, B);
    OrBits(Shl(w, r, B), Shr(carry, B - r), B);
  }

  lemma {:induction false} SpillUpBits(b: seq<nat>, carry: nat, r: nat, B: nat)
    requires r <= B && Fit(b, B) && carry < Pow2(B)
    ensures Fit(SpillUp(b, carry, r, B), B)
    ensures Concat(SpillUp(b, carry, r, B), B) == (BitsOf(carry, B)[B - r..] + Concat(b, B))[..|b| * B]
  {
    hide BitsOf, Pow2, Or, Shl, Shr, Repeat;
    if b != [] {
      SpillUpBlock(b[0], carry, r, B);
      SpillUpBits(b[1..], b[0], r, B);
      var w := BitsOf(b[0], B);
      Distribute(|b| - 1, 1, B);
      assert w == w[..B - r] + w[B - r..];
      SpillUpJoin(BitsOf(carry, B)[B - r..], w[..B - r], w[B - r..], Concat(b[1..], B), (|b| - 1) * B);
    }
  }

  lemma SpillUpJoin(c: bits, lo: bits, hi: bits, rest: bits, n: nat)
    requires n <= |rest|
    ensures (c + lo) + (hi + rest)[..n] == (c + ((lo + hi) + rest))[..|c| + |lo| + n]
  {
  }

  lemma {:induction false} SpillUpAt(b: seq<nat>, carry: nat, r: nat, B: nat, i: nat)
    requires r <= B && i < |b|
    ensures SpillUp(b, carry, r, B)[i] ==
            Or(Shl(b[i], r, B), Shr(if i == 0 then carry else b[i - 1], B - r), B)
  {
    if i > 0 {
      SpillUpAt(b[1..], b[0], r, B, i - 1);
    }
  }

  /** Blocks moved down by `r` bits, the high bits taken from the block above, `carry` at last. */
  function SpillDown(b: seq<nat>, carry: nat, r: nat, B: nat): (s: seq<nat>)
    requires r <= B
    ensures |s| == |b|
  {
    if b == [] then []
    else
      var above := if |b| > 1 then b[1] else carry;
      [Or(Shr(b[0], r), Shl(above, B - r, B), B)] + SpillDown(b[1..], carry, r, B)
  }

  lemma SpillDownBlock(w: nat, above: nat, r: nat, B: nat)
    requires r <= B && w < Pow2(B) && above < Pow2(B)
    ensures var s := Or(Shr(w, r), Shl(above, B - r, B), B);
            && s < Pow2(B)
            && BitsOf(s, B) == BitsOf(w, B)[r..] + BitsOf(above, B)[..r]
  {
    hide BitsOf, Pow2, Or, Shl, Shr, Repeat;
    ShrBits(w, r, B);
    ShlBits(above, B - r, B);
    OrBits(Shr(w, r), Shl(above, B - r, B), B);
  }

  lemma {:induction false} SpillDownBits(b: seq<nat>, carry: nat, r: nat, B: nat)
    requires r <= B && Fit(b, B) && carry < Pow2(B) && b != []
    ensures Fit(SpillDown(b, carry, r, B), B)
    ensures BitsOf(b[0], B)[..r] + Concat(SpillDown(b, carry, r, B), B) == Concat(b, B) + BitsOf(carry, B)[..r]
  {
    var w := BitsOf(b[0], B);
    assert w == w[..r] + w[r..];
    if |b| == 1 {
      SpillDownBlock(b[0], carry, r, B);
      ConcatOne(b[0], B);
      assert b == [b[0]];
      ConcatOne(SpillDown(b, carry, r, B)[0], B);
      assert SpillDown(b, carry, r, B) == [SpillDown(b, carry, r, B)[0]];
    } else {
      SpillDownBlock(b[0], b[1], r, B);
      SpillDownBits(b[1..], carry, r, B);
      SpillDownJoin(w[..r], w[r..], BitsOf(b[1], B)[..r],
                    Concat(SpillDown(b[1..], carry, r, B), B), Concat(b[1..], B), BitsOf(carry, B)[..r]);
    }
  }

  lemma SpillDownJoin(lo: bits, hi: bits, x: bits, tail: bits, rest: bits, c: bits)
    requires x + tail == rest + c
    ensures lo + ((hi + x) + tail) == ((lo + hi) + rest) + c
  {
    assert lo + ((hi + x) + tail) == (lo + hi) + (x + tail);
    assert ((lo + hi) + rest) + c == (lo + hi) + (rest + c);
  }

  lemma {:induction false} SpillDownAt(b: seq<nat>, carry: nat, r: nat, B: nat, i: nat)
    requires r <= B && i < |b|
    ensures SpillDown(b, carry, r, B)[i] ==
            Or(Shr(b[i], r), Shl(if i + 1 < |b| then b[i + 1] else carry, B - r, B), B)
  {
    if i > 0 {
      SpillDownAt(b[1..], carry, r, B, i - 1);
    }
  }
}

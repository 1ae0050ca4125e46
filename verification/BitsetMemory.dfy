/**
 Blocks as bytes in memory, least significant byte first, and the bits counted there.
 */
module BitsetMemory {
  import opened Bytes
  import opened BitCount
  import opened BitBlock
  import opened BitsetBlocks
  import Popcnt

  function BlockBytes(w: nat, n: nat): (d: bytes)
    ensures |d| == n
  {
    if n == 0 then [] else [w % 256] + BlockBytes(w / 256, n - 1)
  }

  function Image(blocks: seq<nat>, n: nat): bytes {
    if blocks == [] then [] else BlockBytes(blocks[0], n) + Image(blocks[1..], n)
  }

  lemma {:induction false} BitsSplit(w: nat, k: nat, n: nat)
    requires k <= n
    ensures BitsOf(w, n) == BitsOf(w, k) + BitsOf(Shr(w, k), n - k)
  {
    if k > 0 {
      BitsSplit(w / 2, k - 1, n - 1);
    }
  }

  lemma ByteAbove(w: nat)
    ensures Shr(w, 8) == w / 256
  {
    hide Shr;
    Halve(w, 8);
    Halve(w / 2, 7);
    Halve(w / 4, 6);
    Halve(w / 8, 5);
    Halve(w / 16, 4);
    Halve(w / 32, 3);
    Halve(w / 64, 2);
    Halve(w / 128, 1);
    Whole(w / 256);
  }

  lemma Halve(w: nat, n: nat)
    requires n > 0
    ensures Shr(w, n) == Shr(w / 2, n - 1)
  {
  }

  lemma Whole(w: nat)
    ensures Shr(w, 0) == w
  {
  }

  lemma {:induction false} LowBits(w: nat, k: nat)
    ensures BitsOf(w % Pow2(k), k) == BitsOf(w, k)
  {
    if k > 0 {
      EvenModulus(w, Pow2(k - 1));
      LowBits(w / 2, k - 1);
    }
  }

  lemma EvenModulus(w: nat, p: nat)
    requires p > 0
    ensures w % (2 * p) % 2 == w % 2 && w % (2 * p) / 2 == w / 2 % p
  {
    var q, r := w / 2 / p, w / 2 % p;
    Quotient(w / 2, p);
    Distribute(q, q, p);
    QuotientIs(w, q, 2 * r + w % 2, 2 * p);
  }

  lemma {:induction false} BlockBytesLoad(w: nat, n: nat)
    ensures Popcnt.Load(BlockBytes(w, n)) == BitsOf(w, 8 * n)
  {
    if n > 0 {
      hide BitsOf;
      BlockBytesLoad(w / 256, n - 1);
      BitsSplit(w, 8, 8 * n);
      ByteAbove(w);
      LowByte(w);
      assert BlockBytes(w, n)[1..] == BlockBytes(w / 256, n - 1);
    } else {
      assert BitsOf(w, 0) == [];
    }
  }

  lemma LowByte(w: nat)
    ensures BitsOf(w % 256, 8) == BitsOf(w, 8)
  {
    assert Pow2(8) == 256 by {
      assert Pow2(4) == 16;
      assert Pow2(6) == 64;
    }
    LowBits(w, 8);
  }

  lemma {:induction false} LoadAppend(a: bytes, b: bytes)
    ensures Popcnt.Load(a + b) == Popcnt.Load(a) + Popcnt.Load(b)
  {
    if a == [] {
      assert a + b == b;
    } else {
      assert (a + b)[1..] == a[1..] + b;
      LoadAppend(a[1..], b);
    }
  }

  lemma {:induction false} ImageLoad(blocks: seq<nat>, n: nat)
    ensures Popcnt.Load(Image(blocks, n)) == Concat(blocks, 8 * n)
  {
    if blocks != [] {
      hide BitsOf, Popcnt.Load, BlockBytes;
      BlockBytesLoad(blocks[0], n);
      LoadAppend(BlockBytes(blocks[0], n), Image(blocks[1..], n));
      ImageLoad(blocks[1..], n);
    }
  }

  /** The bits counted in memory are the bits of the bitset. */
  lemma ImageCounts(blocks: seq<nat>, n: nat, v: bits)
    requires Represents(blocks, 8 * n, v)
    ensures Popcnt.TotalBits(Image(blocks, n)) == Count(v)
  {
    hide Count, Concat, Image, BitsOf, Pow2, Popcnt.Load, Popcnt.TotalBits, Fit, BlocksRequired;
    ImageLoad(blocks, n);
    Popcnt.LoadCounts(Image(blocks, n));
    PaddedCount(v, |blocks| * (8 * n) - |v|);
  }

  lemma PaddedCount(v: bits, n: nat)
    ensures Count(v + Zeros(n)) == Count(v)
  {
    CountConcat(v, Zeros(n));
    NoneCounted(Zeros(n));
  }

  lemma SmallMod(x: nat, n: nat, m: nat)
    requires x <= n < m
    ensures x % m == x
  {
  }
}

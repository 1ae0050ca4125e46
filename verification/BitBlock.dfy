/**
 Blocks of a bitset: unsigned integers of `B` bits. A shift doubles or halves, as the
 language defines it; the lemmas say what that does to the bits.
 */
module BitBlock {
  import opened BitCount

  function Repeat(b: bool, n: nat): (v: bits)
    ensures |v| == n
    ensures forall i | 0 <= i < n :: v[i] == b
  {
    seq(n, _ => b)
  }

  function Zeros(n: nat): (v: bits)
    ensures |v| == n
    ensures forall i | 0 <= i < n :: !v[i]
  {
    Repeat(false, n)
  }

  /** The low `B` bits of a number: conversion to the block type. */
  function Truncated(x: nat, B: nat): nat {
    ValueOf(BitsOf(x, B))
  }

  function TimesPow2(w: nat, n: nat): nat {
    if n == 0 then w else 2 * TimesPow2(w, n - 1)
  }

  function Shl(w: nat, n: nat, B: nat): nat {
    Truncated(TimesPow2(w, n), B)
  }

  function Shr(w: nat, n: nat): nat {
    if n == 0 then w else Shr(w / 2, n - 1)
  }

  function Zip(x: bits, y: bits, f: (bool, bool) -> bool): (v: bits)
    requires |x| == |y|
    ensures |v| == |x|
    ensures forall i | 0 <= i < |v| :: v[i] == f(x[i], y[i])
  {
    seq(|x|, i requires 0 <= i < |x| => f(x[i], y[i]))
  }

  /** Bitwise operators are bitwise. */
  function Or(x: nat, y: nat, B: nat): nat {
    ValueOf(Zip(BitsOf(x, B), BitsOf(y, B), (a, b) => a || b))
  }

  function AndWord(x: nat, y: nat, B: nat): nat {
    ValueOf(Zip(BitsOf(x, B), BitsOf(y, B), (a, b) => a && b))
  }

  function Xor(x: nat, y: nat, B: nat): nat {
    ValueOf(Zip(BitsOf(x, B), BitsOf(y, B), (a, b) => a != b))
  }

  function Not(x: nat, B: nat): nat {
    ValueOf(Zip(BitsOf(x, B), BitsOf(x, B), (a, _) => !a))
  }

  // ----- words and their bits -----

  lemma {:induction false} ValueBits(v: bits)
    ensures BitsOf(ValueOf(v), |v|) == v && ValueOf(v) < Pow2(|v|)
  {
    ValueBound(v);
    if v != [] {
      var r := ValueOf(v[1..]);
      ValueBits(v[1..]);
      var n := ValueOf(v);
      assert n % 2 == (if v[0] then 1 else 0) && n / 2 == r;
      assert v == [v[0]] + v[1..];
    }
  }

  lemma OrBits(x: nat, y: nat, B: nat)
    ensures Or(x, y, B) < Pow2(B)
    ensures BitsOf(Or(x, y, B), B) == Zip(BitsOf(x, B), BitsOf(y, B), (a, b) => a || b)
  {
    ValueBits(Zip(BitsOf(x, B), BitsOf(y, B), (a, b) => a || b));
  }

  lemma AndBits(x: nat, y: nat, B: nat)
    ensures AndWord(x, y, B) < Pow2(B)
    ensures BitsOf(AndWord(x, y, B), B) == Zip(BitsOf(x, B), BitsOf(y, B), (a, b) => a && b)
  {
    ValueBits(Zip(BitsOf(x, B), BitsOf(y, B), (a, b) => a && b));
  }

  lemma XorBits(x: nat, y: nat, B: nat)
    ensures Xor(x, y, B) < Pow2(B)
    ensures BitsOf(Xor(x, y, B), B) == Zip(BitsOf(x, B), BitsOf(y, B), (a, b) => a != b)
  {
    ValueBits(Zip(BitsOf(x, B), BitsOf(y, B), (a, b) => a != b));
  }

  lemma NotBits(x: nat, B: nat)
    ensures Not(x, B) < Pow2(B)
    ensures BitsOf(Not(x, B), B) == Zip(BitsOf(x, B), BitsOf(x, B), (a, _) => !a)
  {
    ValueBits(Zip(BitsOf(x, B), BitsOf(x, B), (a, _) => !a));
  }

  /** Two words with the same bits are the same. */
  lemma SameBits(x: nat, y: nat, B: nat)
    requires x < Pow2(B) && y < Pow2(B) && BitsOf(x, B) == BitsOf(y, B)
    ensures x == y
  {
    BitsOfValue(x, B);
    BitsOfValue(y, B);
  }

  lemma {:induction false} BitsPrefix(x: nat, n: nat, B: nat)
    requires n <= B
    ensures BitsOf(x, n) == BitsOf(x, B)[..n]
  {
    if n > 0 {
      BitsPrefix(x / 2, n - 1, B - 1);
      assert BitsOf(x, B)[..n] == [x % 2 == 1] + BitsOf(x / 2, B - 1)[..n - 1];
    }
  }

  lemma {:induction false} BitsTimesPow2(w: nat, n: nat, B: nat)
    requires n <= B
    ensures BitsOf(TimesPow2(w, n), B) == Zeros(n) + BitsOf(w, B - n)
  {
    if n > 0 {
      BitsTimesPow2(w, n - 1, B - 1);
      assert Zeros(n) == [false] + Zeros(n - 1);
    }
  }

  /** A left shift moves bits up and fills with zeros. */
  lemma ShlBits(w: nat, n: nat, B: nat)
    requires n <= B
    ensures Shl(w, n, B) < Pow2(B)
    ensures BitsOf(Shl(w, n, B), B) == Zeros(n) + BitsOf(w, B)[..B - n]
  {
    ValueBits(BitsOf(TimesPow2(w, n), B));
    BitsTimesPow2(w, n, B);
    BitsPrefix(w, B - n, B);
  }

  /** A right shift moves bits down and fills with zeros. */
  lemma {:induction false} ShrBits(w: nat, n: nat, B: nat)
    requires n <= B && w < Pow2(B)
    ensures Shr(w, n) < Pow2(B)
    ensures BitsOf(Shr(w, n), B) == BitsOf(w, B)[n..] + Zeros(n)
  {
    if n > 0 {
      ShrBits(w / 2, n - 1, B - 1);
      BitsWiden(Shr(w / 2, n - 1), B - 1);
      assert Zeros(n) == Zeros(n - 1) + [false];
      assert BitsOf(w, B)[n..] == BitsOf(w / 2, B - 1)[n - 1..];
    } else {
      assert BitsOf(w, B)[0..] + Zeros(0) == BitsOf(w, B);
    }
  }

  lemma {:induction false} BitsWiden(w: nat, B: nat)
    requires w < Pow2(B)
    ensures BitsOf(w, B + 1) == BitsOf(w, B) + [false]
  {
    if B > 0 {
      BitsWiden(w / 2, B - 1);
    }
  }

  // ----- constant words -----

  /** `one_block`: every bit set. */
  function AllOnes(B: nat): nat {
    Pow2(B) - 1
  }

  lemma {:induction false} LowOnes(k: nat, B: nat)
    requires k <= B
    ensures Pow2(k) - 1 < Pow2(B)
    ensures BitsOf(Pow2(k) - 1, B) == Repeat(true, k) + Zeros(B - k)
  {
    if k == 0 {
      ZeroBits(B);
    } else {
      LowOnes(k - 1, B - 1);
      assert (Pow2(k) - 1) % 2 == 1 && (Pow2(k) - 1) / 2 == Pow2(k - 1) - 1;
      assert Repeat(true, k) == [true] + Repeat(true, k - 1);
    }
  }

  lemma {:induction false} ZeroBits(B: nat)
    ensures BitsOf(0, B) == Zeros(B)
  {
    if B > 0 {
      ZeroBits(B - 1);
      assert Zeros(B) == [false] + Zeros(B - 1);
    }
  }

  lemma AllOnesBits(B: nat)
    ensures AllOnes(B) < Pow2(B) && BitsOf(AllOnes(B), B) == Repeat(true, B)
  {
    LowOnes(B, B);
    assert Repeat(true, B) + Zeros(0) == Repeat(true, B);
  }
}

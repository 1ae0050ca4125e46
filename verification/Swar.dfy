/**
 `popcount64`: the in-register popcount. Each of its steps keeps the sum of the
 digits of the word in a growing base, starting from the bits themselves; the final
 multiplication adds up the bytes.
 */
module Swar {
  import opened BitCount

  /** Bitwise and. */
  function And(x: nat, m: nat): nat {
    if x == 0 || m == 0 then 0 else x % 2 * (m % 2) + 2 * And(x / 2, m / 2)
  }

  /** The mask with digit `c` in each of `n` digits of base `base`. */
  function Mask(base: nat, c: nat, n: nat): nat {
    if n == 0 then 0 else c + base * Mask(base, c, n - 1)
  }

  /** Sum of the digits of `x` in base `base`. */
  function DigitSum(base: nat, x: nat): nat
    requires base >= 2
  {
    if x == 0 then 0 else x % base + DigitSum(base, x / base)
  }

  /** Every base-`base` digit of `x` is at most `d`. */
  predicate DigitsAtMost(base: nat, x: nat, d: nat)
    requires base >= 2
  {
    x == 0 || (x % base <= d && DigitsAtMost(base, x / base, d))
  }

  // ----- fields -----

  lemma AndStep(x: nat, a: nat, m: nat, c: nat)
    requires a < 2 && c < 2
    ensures And(2 * x + a, 2 * m + c) == a * c + 2 * And(x, m)
  {
    assert (2 * x + a) / 2 == x && (2 * x + a) % 2 == a;
    assert (2 * m + c) / 2 == m && (2 * m + c) % 2 == c;
    assert x == 0 || m == 0 ==> And(x, m) == 0;
  }

  lemma AndZero(x: nat, m: nat)
    requires x == 0 || m == 0
    ensures And(x, m) == 0
  {
  }

  /** The pair of bits under a mask digit 1. */
  lemma And1(x: nat, r: nat, m: nat)
    requires r < 4
    ensures And(4 * x + r, 4 * m + 1) == r % 2 + 4 * And(x, m)
  {
    AndStep(x, r / 2, m, 0);
    AndStep(2 * x + r / 2, r % 2, 2 * m, 1);
  }

  lemma AndTwo(x: nat, r: nat, m: nat, c: nat)
    requires r < 4 && c in {0, 3}
    ensures And(4 * x + r, 4 * m + c) == (if c == 0 then 0 else r) + 4 * And(x, m)
  {
    var hi, lo := r / 2, r % 2;
    var b := if c == 0 then 0 else 1;
    AndStep(x, hi, m, b);
    AndStep(2 * x + hi, lo, 2 * m + b, b);
    assert 2 * (2 * x + hi) + lo == 4 * x + r && 2 * (2 * m + b) + b == 4 * m + c;
  }

  /** The four bits under a mask digit 3. */
  lemma And3(x: nat, hi: nat, lo: nat, m: nat)
    requires hi < 4 && lo < 4
    ensures And(16 * x + (4 * hi + lo), 16 * m + 3) == lo + 16 * And(x, m)
  {
    hide And;
    AndTwo(x, hi, m, 0);
    AndTwo(4 * x + hi, lo, 4 * m, 3);
    assert 4 * (4 * x + hi) + lo == 16 * x + (4 * hi + lo);
  }

  lemma And4(x: nat, r: nat, m: nat, c: nat)
    requires r < 16 && c in {0, 15}
    ensures And(16 * x + r, 16 * m + c) == (if c == 0 then 0 else r) + 16 * And(x, m)
  {
    var hi, lo := r / 4, r % 4;
    var b := if c == 0 then 0 else 3;
    hide And;
    AndTwo(x, hi, m, b);
    AndTwo(4 * x + hi, lo, 4 * m + b, b);
    assert 4 * (4 * x + hi) + lo == 16 * x + r && 4 * (4 * m + b) + b == 16 * m + c;
  }

  /** The byte under a mask digit 15. */
  lemma And15(x: nat, hi: nat, lo: nat, m: nat)
    requires hi < 16 && lo < 16
    ensures And(256 * x + 16 * hi + lo, 256 * m + 15) == lo + 256 * And(x, m)
  {
    And4(x, hi, m, 0);
    And4(16 * x + hi, lo, 16 * m, 15);
  }

  // ----- the steps -----

  function Power(base: nat, n: nat): nat {
    if n == 0 then 1 else base * Power(base, n - 1)
  }

  lemma DigitStep(base: nat, x: nat, r: nat, d: nat)
    requires base in {4, 16, 256} && r < base
    ensures DigitSum(base, base * x + r) == r + DigitSum(base, x)
    ensures DigitsAtMost(base, base * x + r, d) <==> r <= d && DigitsAtMost(base, x, d)
  {
    var y := base * x + r;
    assert y / base == x && y % base == r by { DivMod(base, x, r); }
  }

  lemma DivMod(base: nat, x: nat, r: nat)
    requires base in {4, 16, 256} && r < base
    ensures (base * x + r) / base == x && (base * x + r) % base == r
  {
    if base == 4 {
    } else if base == 16 {
    } else {
    }
  }

  function PairCounts(x: nat, n: nat): nat {
    if x < And(x / 2, Mask(4, 1, n)) then 0 else x - And(x / 2, Mask(4, 1, n))
  }

  /** `x -= (x >> 1) & m1`: each pair of bits becomes its count. */
  lemma {:induction false} PairStep(x: nat, n: nat)
    requires x < Power(4, n)
    ensures And(x / 2, Mask(4, 1, n)) <= x
    ensures DigitSum(4, PairCounts(x, n)) == Pop(x)
    ensures DigitsAtMost(4, PairCounts(x, n), 2)
  {
    if n > 0 {
      var X, r := x / 4, x % 4;
      var M := Mask(4, 1, n - 1);
      PairStep(X, n - 1);
      PairAnd(X, r, M);
      var Y := PairCounts(X, n - 1);
      assert PairCounts(x, n) == 4 * Y + (r - r / 2);
      DigitStep(4, Y, r - r / 2, 2);
      PairPop(X, r);
    } else {
      AndZero(x / 2, Mask(4, 1, n));
    }
  }

  lemma PairAnd(X: nat, r: nat, M: nat)
    requires r < 4
    ensures And((4 * X + r) / 2, 1 + 4 * M) == r / 2 + 4 * And(X / 2, M)
  {
    var low := 2 * (X % 2) + r / 2;
    assert (4 * X + r) / 2 == 4 * (X / 2) + low;
    And1(X / 2, low, M);
  }

  lemma PairPop(X: nat, r: nat)
    requires r < 4
    ensures Pop(4 * X + r) == (r - r / 2) + Pop(X)
  {
    PopStep(X, r / 2);
    PopStep(2 * X + r / 2, r % 2);
    assert 2 * (2 * X + r / 2) + r % 2 == 4 * X + r;
  }

  function NibbleCounts(x: nat, n: nat): nat {
    And(x, Mask(16, 3, n)) + And(x / 4, Mask(16, 3, n))
  }

  /** `x = (x & m2) + ((x >> 2) & m2)`: counts of pairs become counts of nibbles. */
  lemma {:induction false} NibbleStep(x: nat, n: nat)
    requires x < Power(16, n) && DigitsAtMost(4, x, 2)
    ensures DigitSum(16, NibbleCounts(x, n)) == DigitSum(4, x)
    ensures DigitsAtMost(16, NibbleCounts(x, n), 4)
  {
    if n > 0 {
      hide And, DigitSum, DigitsAtMost;
      var X, r := x / 16, x % 16;
      var p, q := r % 4, r / 4;
      TwoDigits(X, p, q);
      NibbleStep(X, n - 1);
      NibbleCountsStep(X, p, q, n);
      hide NibbleCounts;
      DigitStep(16, NibbleCounts(X, n - 1), p + q, 4);
    } else {
      AndZero(x, Mask(16, 3, n));
      AndZero(x / 4, Mask(16, 3, n));
    }
  }

  lemma NibbleCountsStep(X: nat, p: nat, q: nat, n: nat)
    requires p < 4 && q < 4 && n > 0
    ensures NibbleCounts(16 * X + (4 * q + p), n) == 16 * NibbleCounts(X, n - 1) + (p + q)
  {
    hide And;
    NibbleAnd(X, p, q, Mask(16, 3, n - 1));
  }

  lemma TwoDigits(X: nat, p: nat, q: nat)
    requires p < 4 && q < 4
    ensures var x := 16 * X + (4 * q + p);
            && DigitSum(4, x) == p + q + DigitSum(4, X)
            && (DigitsAtMost(4, x, 2) ==> p <= 2 && q <= 2 && DigitsAtMost(4, X, 2))
  {
    hide DigitSum, DigitsAtMost;
    DigitStep(4, X, q, 2);
    DigitStep(4, 4 * X + q, p, 2);
    assert 4 * (4 * X + q) + p == 16 * X + (4 * q + p);
  }

  lemma NibbleAnd(X: nat, p: nat, q: nat, M: nat)
    requires p < 4 && q < 4
    ensures And(16 * X + (4 * q + p), 3 + 16 * M) == p + 16 * And(X, M)
    ensures And((16 * X + (4 * q + p)) / 4, 3 + 16 * M) == q + 16 * And(X / 4, M)
  {
    hide And;
    And3(X, q, p, M);
    var Y, R := X / 4, X % 4;
    Quarter(Y, R, p, q);
    And3(Y, R, q, M);
  }

  lemma Quarter(Y: nat, R: nat, p: nat, q: nat)
    requires p < 4
    ensures (16 * (4 * Y + R) + (4 * q + p)) / 4 == 16 * Y + (4 * R + q)
  {
  }

  function ByteCounts(x: nat, n: nat): nat {
    And(x + x / 16, Mask(256, 15, n))
  }

  /** `x = (x + (x >> 4)) & m4`: counts of nibbles become counts of bytes. */
  lemma {:induction false} ByteStep(x: nat, n: nat)
    requires x < Power(256, n) && DigitsAtMost(16, x, 4)
    ensures DigitSum(256, ByteCounts(x, n)) == DigitSum(16, x)
    ensures DigitsAtMost(256, ByteCounts(x, n), 8)
  {
    if n > 0 {
      hide And, DigitSum, DigitsAtMost;
      var X, r := x / 256, x % 256;
      var p, q := r % 16, r / 16;
      TwoNibbles(X, p, q);
      LowNibble(X);
      ByteStep(X, n - 1);
      ByteCountsStep(X, p, q, n);
      hide ByteCounts;
      DigitStep(256, ByteCounts(X, n - 1), p + q, 8);
    } else {
      AndZero(x + x / 16, Mask(256, 15, n));
    }
  }

  lemma ByteCountsStep(X: nat, p: nat, q: nat, n: nat)
    requires p <= 4 && q <= 4 && X % 16 <= 4 && n > 0
    ensures ByteCounts(256 * X + (16 * q + p), n) == 256 * ByteCounts(X, n - 1) + (p + q)
  {
    hide And;
    ByteAnd(X, p, q, Mask(256, 15, n - 1));
  }

  lemma LowNibble(X: nat)
    requires DigitsAtMost(16, X, 4)
    ensures X % 16 <= 4
  {
  }

  lemma TwoNibbles(X: nat, p: nat, q: nat)
    requires p < 16 && q < 16
    ensures var x := 256 * X + (16 * q + p);
            && DigitSum(16, x) == p + q + DigitSum(16, X)
            && (DigitsAtMost(16, x, 4) ==> p <= 4 && q <= 4 && DigitsAtMost(16, X, 4))
  {
    hide DigitSum, DigitsAtMost;
    DigitStep(16, X, q, 4);
    DigitStep(16, 16 * X + q, p, 4);
    assert 16 * (16 * X + q) + p == 256 * X + (16 * q + p);
  }

  lemma ByteAnd(X: nat, p: nat, q: nat, M: nat)
    requires p <= 4 && q <= 4 && X % 16 <= 4
    ensures var x := 256 * X + (16 * q + p);
            And(x + x / 16, 15 + 256 * M) == p + q + 256 * And(X + X / 16, M)
  {
    hide And;
    var Y, R := X / 16, X % 16;
    AddSixteenth(Y, R, p, q);
    And15(X + Y, R + q, p + q, M);
  }

  lemma AddSixteenth(Y: nat, R: nat, p: nat, q: nat)
    requires p < 16
    ensures var X := 16 * Y + R;
            var x := 256 * X + (16 * q + p);
            x + x / 16 == 256 * (X + Y) + 16 * (R + q) + (p + q)
  {
    assert (256 * (16 * Y + R) + (16 * q + p)) / 16 == 16 * (16 * Y + R) + q;
  }

  // ----- adding up the bytes -----

  const WORD: nat := 0x1_0000_0000_0000_0000

  /** The top byte of `y * 0x0101010101010101` is the sum of the bytes of `y`. */
  lemma ByteSum(y: nat, p0: nat, p1: nat, p2: nat, p3: nat, p4: nat, p5: nat, p6: nat, p7: nat)
    requires p0 <= 8 && p1 <= 8 && p2 <= 8 && p3 <= 8 && p4 <= 8 && p5 <= 8 && p6 <= 8 && p7 <= 8
    requires y == p0 + 256 * (p1 + 256 * (p2 + 256 * (p3 + 256 * (p4 + 256 * (p5 + 256 * (p6 + 256 * p7))))))
    ensures y * 0x0101_0101_0101_0101 % WORD / 0x100_0000_0000_0000 == p0 + p1 + p2 + p3 + p4 + p5 + p6 + p7
  {
    var s1, s2, s3 := p0 + p1, p0 + p1 + p2, p0 + p1 + p2 + p3;
    var s4 := s3 + p4;
    var s5 := s4 + p5;
    var s6 := s5 + p6;
    var s7 := s6 + p7;
    var low := p0 + 256 * (s1 + 256 * (s2 + 256 * (s3 + 256 * (s4 + 256 * (s5 + 256 * s6)))));
    var high := (s7 - p0) + 256 * ((s7 - s1) + 256 * ((s7 - s2) + 256 * ((s7 - s3) + 256 * ((s7 - s4) +
                256 * ((s7 - s5) + 256 * (s7 - s6))))));
    assert y * 0x0101_0101_0101_0101 == low + s7 * 0x100_0000_0000_0000 + high * WORD;
    assert low < 0x100_0000_0000_0000;
    TopByte(low, s7, high);
  }

  lemma TopByte(low: nat, s: nat, high: nat)
    requires low < 0x100_0000_0000_0000 && s < 256
    ensures (low + s * 0x100_0000_0000_0000 + high * WORD) % WORD / 0x100_0000_0000_0000 == s
  {
    var t := low + s * 0x100_0000_0000_0000;
    assert t < WORD;
    assert (t + high * WORD) % WORD == t;
  }

  lemma NextByte(y: nat) returns (p: nat, rest: nat)
    requires DigitsAtMost(256, y, 8)
    ensures y == p + 256 * rest && p <= 8 && DigitsAtMost(256, rest, 8)
    ensures DigitSum(256, y) == p + DigitSum(256, rest)
  {
    p, rest := y % 256, y / 256;
  }

  lemma EightBytes(y: nat)
    requires y < WORD && DigitsAtMost(256, y, 8)
    ensures y * 0x0101_0101_0101_0101 % WORD / 0x100_0000_0000_0000 == DigitSum(256, y)
  {
    hide DigitSum, DigitsAtMost;
    var p0, y1 := NextByte(y);
    var p1, y2 := NextByte(y1);
    var p2, y3 := NextByte(y2);
    var p3, y4 := NextByte(y3);
    var p4, y5 := NextByte(y4);
    var p5, y6 := NextByte(y5);
    var p6, y7 := NextByte(y6);
    var p7, y8 := NextByte(y7);
    assert y8 == 0;
    NoDigits(y8);
    ByteSum(y, p0, p1, p2, p3, p4, p5, p6, p7);
  }

  lemma NoDigits(x: nat)
    requires x == 0
    ensures DigitSum(256, x) == 0
  {
  }

  lemma {:induction false} AndBound(x: nat, m: nat)
    ensures And(x, m) <= x && And(x, m) <= m
    decreases x
  {
    if x != 0 && m != 0 {
      AndBound(x / 2, m / 2);
      assert x % 2 * (m % 2) <= x % 2 && x % 2 * (m % 2) <= m % 2;
    }
  }

  lemma {:induction false} MaskConcat(base: nat, c: nat, m: nat, n: nat)
    ensures Mask(base, c, m + n) == Mask(base, c, m) + Power(base, m) * Mask(base, c, n)
    ensures Power(base, m + n) == Power(base, m) * Power(base, n)
  {
    if m > 0 {
      MaskConcat(base, c, m - 1, n);
      Distribute(base, Power(base, m - 1), Mask(base, c, n), Mask(base, c, m - 1));
      Distribute(base, Power(base, m - 1), Power(base, n), 0);
    }
  }

  lemma Distribute(b: nat, p: nat, y: nat, z: nat)
    ensures b * (z + p * y) == b * z + (b * p) * y
  {
    assert b * (p * y) == (b * p) * y;
  }

  lemma PairMask()
    ensures Mask(4, 1, 32) == 0x5555_5555_5555_5555 && Power(4, 32) == WORD
  {
    assert Mask(4, 1, 4) == 0x55 && Power(4, 4) == 256;
    MaskConcat(4, 1, 4, 4);
    hide Mask, Power;
    assert Mask(4, 1, 8) == 0x5555 && Power(4, 8) == 65536;
    MaskConcat(4, 1, 8, 8);
    assert Mask(4, 1, 16) == 0x5555_5555 && Power(4, 16) == 0x1_0000_0000;
    MaskConcat(4, 1, 16, 16);
  }

  lemma NibbleMask()
    ensures Mask(16, 3, 16) == 0x3333_3333_3333_3333 && Power(16, 16) == WORD
  {
    assert Mask(16, 3, 4) == 0x3333 && Power(16, 4) == 65536;
    MaskConcat(16, 3, 4, 4);
    MaskConcat(16, 3, 8, 8);
  }

  lemma ByteMask()
    ensures Mask(256, 15, 8) == 0x0F0F_0F0F_0F0F_0F0F && Power(256, 8) == WORD
  {
    assert Mask(256, 15, 4) == 0x0F0F_0F0F && Power(256, 4) == 0x1_0000_0000;
    MaskConcat(256, 15, 4, 4);
  }

  const M1: nat := 0x5555_5555_5555_5555
  const M2: nat := 0x3333_3333_3333_3333
  const M4: nat := 0x0F0F_0F0F_0F0F_0F0F
  const H01: nat := 0x0101_0101_0101_0101

  /** `popcount64`, with 64-bit wrap-around written out. */
  function Popcount64(x: nat): nat
    requires x < WORD
  {
    var x1 := (x as int - And(x / 2, M1)) % WORD;
    var x2 := (And(x1, M2) + And(x1 / 4, M2)) % WORD;
    var x3 := And((x2 + x2 / 16) % WORD, M4);
    x3 * H01 % WORD / 0x100_0000_0000_0000
  }

  lemma WordPairs(x: nat) returns (x1: nat)
    requires x < WORD
    ensures x1 == (x as int - And(x / 2, M1)) % WORD && x1 < WORD
    ensures DigitSum(4, x1) == Pop(x) && DigitsAtMost(4, x1, 2)
  {
    hide And, DigitSum, DigitsAtMost, Pop;
    PairMask();
    hide Mask, Power;
    PairStep(x, 32);
    x1 := PairCounts(x, 32);
  }

  lemma WordNibbles(x1: nat) returns (x2: nat)
    requires x1 < WORD && DigitsAtMost(4, x1, 2)
    ensures x2 == (And(x1, M2) + And(x1 / 4, M2)) % WORD && x2 <= 2 * M2
    ensures DigitSum(16, x2) == DigitSum(4, x1) && DigitsAtMost(16, x2, 4)
  {
    hide And, DigitSum, DigitsAtMost;
    NibbleMask();
    hide Mask, Power;
    NibbleStep(x1, 16);
    x2 := NibbleCounts(x1, 16);
    AndBound(x1, M2);
    AndBound(x1 / 4, M2);
  }

  lemma WordBytes(x2: nat) returns (x3: nat)
    requires x2 <= 2 * M2 && DigitsAtMost(16, x2, 4)
    ensures x3 == And((x2 + x2 / 16) % WORD, M4) && x3 < WORD
    ensures DigitSum(256, x3) == DigitSum(16, x2) && DigitsAtMost(256, x3, 8)
  {
    hide And, DigitSum, DigitsAtMost;
    ByteMask();
    hide Mask, Power;
    ByteStep(x2, 8);
    x3 := ByteCounts(x2, 8);
    AndBound(x2 + x2 / 16, M4);
  }

  /** The in-register popcount counts bits. */
  lemma Popcount64IsPop(x: nat)
    requires x < WORD
    ensures Popcount64(x) == Pop(x)
  {
    hide And, DigitSum, DigitsAtMost, Pop;
    var x1 := WordPairs(x);
    var x2 := WordNibbles(x1);
    var x3 := WordBytes(x2);
    EightBytes(x3);
  }
}

/**
 `popcnt512`: the in-register popcount on bytes inside sixteen-bit lanes. Bits that a
 sixteen-bit shift moves into a byte from its neighbour are masked away.
 */
module Simd512 {
  import opened BitCount
  import opened Swar
  import opened Simd

  lemma AndDouble(u: nat, r: nat, v: nat, c: nat, w: nat)
    requires And(u + r / 2, v + c / 2) == And(r / 2, c / 2) + w
    ensures And(2 * u + r, 2 * v + c) == And(r, c) + 2 * w
  {
    hide And;
    AndStep(u + r / 2, r % 2, v + c / 2, c % 2);
    AndStep(r / 2, r % 2, c / 2, c % 2);
    assert 2 * (u + r / 2) + r % 2 == 2 * u + r && 2 * (v + c / 2) + c % 2 == 2 * v + c;
  }

  /** The and of numbers put next to each other, by the width of the lower one. */
  lemma AndSplit2(X: nat, r: nat, M: nat, c: nat)
    requires r < 4 && c < 4
    ensures And(4 * X + r, 4 * M + c) == And(r, c) + 4 * And(X, M)
  {
    AndZero(0, 0);
    hide And;
    AndDouble(X, r / 2, M, c / 2, And(X, M));
    AndDouble(2 * X, r, 2 * M, c, 2 * And(X, M));
  }

  lemma AndSplit3(X: nat, r: nat, M: nat, c: nat)
    requires r < 8 && c < 8
    ensures And(8 * X + r, 8 * M + c) == And(r, c) + 8 * And(X, M)
  {
    hide And;
    AndSplit2(X, r / 2, M, c / 2);
    AndDouble(4 * X, r, 4 * M, c, 4 * And(X, M));
  }

  lemma AndSplit4(X: nat, r: nat, M: nat, c: nat)
    requires r < 16 && c < 16
    ensures And(16 * X + r, 16 * M + c) == And(r, c) + 16 * And(X, M)
  {
    hide And;
    AndSplit3(X, r / 2, M, c / 2);
    AndDouble(8 * X, r, 8 * M, c, 8 * And(X, M));
  }

  lemma AndBytes(X: nat, r: nat, M: nat, c: nat)
    requires r < 256 && c < 256
    ensures And(256 * X + r, 256 * M + c) == And(r, c) + 256 * And(X, M)
  {
    hide And;
    var rh, rl, ch, cl := r / 16, r % 16, c / 16, c % 16;
    AndSplit4(X, rh, M, ch);
    AndSplit4(16 * X + rh, rl, 16 * M + ch, cl);
    AndSplit4(rh, rl, ch, cl);
  }

  /** Bits that a shift brings in from the neighbouring byte are masked away. */
  lemma AndLow7(X: nat, y: nat)
    requires X < 2 && y < 128
    ensures And(128 * X + y, 0x55) == And(y, 0x55)
  {
    AndZero(X, 0);
    hide And;
    var h, l := y / 16, y % 16;
    AndSplit4(8 * X + h, l, 5, 5);
    AndSplit4(h, l, 5, 5);
    AndSplit3(X, h, 0, 5);
  }

  lemma AndLow6(X: nat, y: nat)
    requires X < 4 && y < 64
    ensures And(64 * X + y, 0x33) == And(y, 0x33)
  {
    AndZero(X, 0);
    hide And;
    var h, l := y / 16, y % 16;
    AndSplit4(4 * X + h, l, 3, 3);
    AndSplit4(h, l, 3, 3);
    AndSplit2(X, h, 0, 3);
  }

  // ----- bytes of a sixteen-bit lane -----

  function SubBytes(x: nat, y: nat): nat
  {
    (x as int % 256 - y % 256) % 256 + 256 * ((x as int / 256 - y / 256) % 256)
  }

  function AddBytes(x: nat, y: nat): nat {
    (x % 256 + y % 256) % 256 + 256 * ((x / 256 + y / 256) % 256)
  }

  lemma SubBytesExact(h: nat, l: nat, h': nat, l': nat)
    requires l' <= l < 256 && h' <= h < 256
    ensures SubBytes(256 * h + l, 256 * h' + l') == 256 * (h - h') + (l - l')
  {
    assert (256 * h + l) % 256 == l && (256 * h + l) / 256 == h;
    assert (256 * h' + l') % 256 == l' && (256 * h' + l') / 256 == h';
  }

  lemma AddBytesExact(h: nat, l: nat, h': nat, l': nat)
    requires l + l' < 256 && h + h' < 256
    ensures AddBytes(256 * h + l, 256 * h' + l') == 256 * (h + h') + (l + l')
  {
    assert (256 * h + l) % 256 == l && (256 * h + l) / 256 == h;
    assert (256 * h' + l') % 256 == l' && (256 * h' + l') / 256 == h';
  }

  /** The steps of `popcnt512` on one lane, and the two bytes they leave. */
  function Lane512(w: nat): nat {
    var t1 := SubBytes(w, And(w / 2, 0x5555));
    var t2 := AddBytes(And(t1, 0x3333), And(t1 / 4, 0x3333));
    var t3 := And(AddBytes(t2, t2 / 16), 0x0F0F);
    t3 % 256 + t3 / 256
  }

  lemma LanePairs(h: nat, l: nat)
    requires h < 256 && l < 256
    ensures var w := 256 * h + l;
            SubBytes(w, And(w / 2, 0x5555)) == 256 * PairCounts(h, 4) + PairCounts(l, 4)
    ensures PairCounts(h, 4) <= h && PairCounts(l, 4) <= l
  {
    hide And, SubBytes;
    var w := 256 * h + l;
    var hh, hl := h / 2, h % 2;
    assert w / 2 == 256 * hh + (128 * hl + l / 2);
    AndBytes(hh, 128 * hl + l / 2, 0x55, 0x55);
    AndLow7(hl, l / 2);
    AndBound(hh, 0x55);
    AndBound(l / 2, 0x55);
    SubBytesExact(h, l, And(hh, 0x55), And(l / 2, 0x55));
    assert Mask(4, 1, 4) == 0x55;
  }

  lemma LaneNibbles(h: nat, l: nat)
    requires h < 256 && l < 256
    ensures var w := 256 * h + l;
            AddBytes(And(w, 0x3333), And(w / 4, 0x3333)) == 256 * NibbleCounts(h, 2) + NibbleCounts(l, 2)
    ensures NibbleCounts(h, 2) < 256 && NibbleCounts(l, 2) < 256
  {
    hide And, AddBytes;
    var w := 256 * h + l;
    AndBytes(h, l, 0x33, 0x33);
    var hh, hl := h / 4, h % 4;
    assert w / 4 == 256 * hh + (64 * hl + l / 4);
    AndBytes(hh, 64 * hl + l / 4, 0x33, 0x33);
    AndLow6(hl, l / 4);
    AndBound(h, 0x33);
    AndBound(l, 0x33);
    AndBound(hh, 0x33);
    AndBound(l / 4, 0x33);
    AddBytesExact(And(h, 0x33), And(l, 0x33), And(hh, 0x33), And(l / 4, 0x33));
    assert Mask(16, 3, 2) == 0x33;
  }

  lemma SmallNibbles(x: nat)
    requires x < 256 && DigitsAtMost(16, x, 4)
    ensures x % 16 <= 4 && x / 16 <= 4
  {
    assert x / 16 % 16 == x / 16;
  }

  lemma LaneBytes(h: nat, l: nat)
    requires h < 256 && l < 256 && DigitsAtMost(16, h, 4) && DigitsAtMost(16, l, 4)
    ensures var w := 256 * h + l;
            And(AddBytes(w, w / 16), 0x0F0F) == 256 * ByteCounts(h, 1) + ByteCounts(l, 1)
  {
    hide And, AddBytes, DigitsAtMost;
    SmallNibbles(h);
    SmallNibbles(l);
    var w := 256 * h + l;
    var hh, hl := h / 16, h % 16;
    assert w / 16 == 256 * hh + (16 * hl + l / 16);
    AddBytesExact(h, l, hh, 16 * hl + l / 16);
    var low := 16 * hl + (l + l / 16);
    AndBytes(h + hh, low, 15, 15);
    LowFifteen(hl, l + l / 16);
    assert Mask(256, 15, 1) == 15;
  }

  lemma LowFifteen(X: nat, y: nat)
    ensures And(16 * X + y, 15) == And(y, 15)
  {
    AndZero(X + y / 16, 0);
    AndZero(y / 16, 0);
    hide And;
    AndSplit4(X + y / 16, y % 16, 0, 15);
    AndSplit4(y / 16, y % 16, 0, 15);
    assert 16 * (X + y / 16) + y % 16 == 16 * X + y;
  }

  /** The same steps on a single byte count its bits. */
  lemma BytePop(b: nat)
    requires b < 256
    ensures var b1 := PairCounts(b, 4);
            var b2 := NibbleCounts(b1, 2);
            DigitsAtMost(4, b1, 2) && DigitsAtMost(16, b2, 4) && ByteCounts(b2, 1) == Pop(b) <= 8
  {
    hide And, DigitSum, DigitsAtMost, Pop;
    assert Power(4, 4) == 256 && Power(16, 2) == 256 && Power(256, 1) == 256;
    hide Power;
    PairStep(b, 4);
    var b1 := PairCounts(b, 4);
    NibbleStep(b1, 2);
    LaneNibbles(0, b1);
    var b2 := NibbleCounts(b1, 2);
    ByteStep(b2, 1);
    OneByte(b2);
  }

  lemma OneByte(x: nat)
    requires DigitsAtMost(256, ByteCounts(x, 1), 8)
    ensures DigitSum(256, ByteCounts(x, 1)) == ByteCounts(x, 1) <= 8
  {
    AndBound(x + x / 16, 15);
    hide And;
    assert Mask(256, 15, 1) == 15;
  }

  /** `popcnt512` on one lane counts its bits. */
  lemma Lane512IsPop(w: nat)
    requires w < 65536
    ensures Lane512(w) == Pop(w)
  {
    hide And, SubBytes, AddBytes, PairCounts, NibbleCounts, ByteCounts, Pop, DigitsAtMost;
    var h, l := w / 256, w % 256;
    BytePop(h);
    BytePop(l);
    var h1, l1 := PairCounts(h, 4), PairCounts(l, 4);
    LanePairs(h, l);
    var h2, l2 := NibbleCounts(h1, 2), NibbleCounts(l1, 2);
    LaneNibbles(h1, l1);
    LaneBytes(h2, l2);
    var t3 := 256 * Pop(h) + Pop(l);
    assert t3 % 256 == Pop(l) && t3 / 256 == Pop(h);
    LanePop(h, l);
  }

  lemma LanePop(h: nat, l: nat)
    requires l < 256
    ensures Pop(256 * h + l) == Pop(h) + Pop(l)
  {
    Powers();
    PopSplit(l, h, 8);
  }

  // ----- the whole vector -----

  /** Sum of the lane bytes over `n` lanes from bit `from` on. */
  function Sad512(v: bits, from: nat, n: nat): nat
    requires from + 16 * n <= |v|
    decreases n
  {
    if n == 0 then 0 else Lane512(ValueOf(v[from..from + 16])) + Sad512(v, from + 16, n - 1)
  }

  function Popcnt512(v: bits): (lanes: seq<nat>)
    requires |v| == 512
    ensures |lanes| == 8
  {
    [Sad512(v, 0, 4), Sad512(v, 64, 4), Sad512(v, 128, 4), Sad512(v, 192, 4),
     Sad512(v, 256, 4), Sad512(v, 320, 4), Sad512(v, 384, 4), Sad512(v, 448, 4)]
  }

  lemma {:induction false} Sad512Counts(v: bits, from: nat, n: nat)
    requires from + 16 * n <= |v|
    ensures Sad512(v, from, n) == Count(v[from..from + 16 * n])
    decreases n
  {
    if n == 0 {
      assert v[from..from] == [];
    } else {
      hide Lane512, Count, ValueOf;
      assert Sad512(v, from, n) == Lane512(ValueOf(v[from..from + 16])) + Sad512(v, from + 16, n - 1);
      hide Sad512;
      var x, y := v[from..from + 16], v[from + 16..from + 16 + 16 * (n - 1)];
      LaneCount(x);
      Sad512Counts(v, from + 16, n - 1);
      assert v[from..from + 16 * n] == x + y;
      CountConcat(x, y);
    }
  }

  lemma LaneCount(x: bits)
    requires |x| == 16
    ensures Lane512(ValueOf(x)) == Count(x)
  {
    hide Lane512, Count, ValueOf;
    ValueBound(x);
    Powers();
    assert Pow2(12) == 16 * Pow2(8) && Pow2(16) == 16 * Pow2(12);
    Lane512IsPop(ValueOf(x));
    CountIsPop(x);
  }

  /** `popcnt512`: the lanes together count the bits of the vector. */
  lemma Popcnt512Counts(v: bits)
    requires |v| == 512
    ensures LaneSum(Popcnt512(v)) == Count(v)
  {
    hide Sad512, Count;
    Half512(v, 0);
    Half512(v, 256);
    var a := [Sad512(v, 0, 4), Sad512(v, 64, 4), Sad512(v, 128, 4), Sad512(v, 192, 4)];
    var b := [Sad512(v, 256, 4), Sad512(v, 320, 4), Sad512(v, 384, 4), Sad512(v, 448, 4)];
    assert Popcnt512(v) == a + b;
    LaneSumConcat(a, b);
    assert v == v[0..256] + v[256..512];
    CountConcat(v[0..256], v[256..512]);
  }

  lemma Half512(v: bits, from: nat)
    requires |v| == 512 && from in {0, 256}
    ensures LaneSum([Sad512(v, from, 4), Sad512(v, from + 64, 4), Sad512(v, from + 128, 4), Sad512(v, from + 192, 4)])
         == Count(v[from..from + 256])
  {
    hide Sad512, Count;
    Sad512Counts(v, from, 4);
    Sad512Counts(v, from + 64, 4);
    Sad512Counts(v, from + 128, 4);
    Sad512Counts(v, from + 192, 4);
    var a, b, c, d := v[from..from + 64], v[from + 64..from + 128], v[from + 128..from + 192], v[from + 192..from + 256];
    FourLanes(Count(a), Count(b), Count(c), Count(d));
    assert v[from..from + 256] == a + (b + (c + d));
    CountConcat(c, d);
    CountConcat(b, c + d);
    CountConcat(a, b + (c + d));
  }

  lemma {:induction false} LaneSumConcat(a: seq<nat>, b: seq<nat>)
    ensures LaneSum(a + b) == LaneSum(a) + LaneSum(b)
  {
    if a == [] {
      assert a + b == b;
    } else {
      assert (a + b)[1..] == a[1..] + b;
      LaneSumConcat(a[1..], b);
    }
  }
}

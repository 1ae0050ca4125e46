/**
 The Harley-Seal loops `popcnt_avx2` and `popcnt_avx512`: carry-save accumulators for
 ones, twos, fours and eights, and a lane counter for the sixteens. The two bodies
 differ only in the vector operations, which `kind` selects.
 */
module HarleySeal {
  import opened BitCount
  import opened Swar
  import opened Simd
  import opened Simd512

  function VectorCounts(kind: Kind, v: bits): (lanes: seq<nat>)
    requires |v| == Width(kind)
    ensures |lanes| == Width(kind) / 64
  {
    match kind
    case Avx2 => Popcnt256(v)
    case Avx512 => Popcnt512(v)
  }

  lemma VectorCountsSum(kind: Kind, v: bits)
    requires |v| == Width(kind)
    ensures LaneSum(VectorCounts(kind, v)) == Count(v)
  {
    match kind
    case Avx2 => Popcnt256Counts(v);
    case Avx512 => Popcnt512Counts(v);
  }

  ghost predicate Vectors(kind: Kind, ptr: seq<bits>) {
    forall i | 0 <= i < |ptr| :: |ptr[i]| == Width(kind)
  }

  /** The number of one bits in the first `k` vectors. */
  function Seen(ptr: seq<bits>, k: nat): nat
    requires k <= |ptr|
  {
    if k == 0 then 0 else Seen(ptr, k - 1) + Count(ptr[k - 1])
  }

  lemma SeenFour(ptr: seq<bits>, k: nat)
    requires k + 4 <= |ptr|
    ensures Seen(ptr, k + 4)
         == Seen(ptr, k) + Count(ptr[k]) + Count(ptr[k + 1]) + Count(ptr[k + 2]) + Count(ptr[k + 3])
  {
    hide Count;
    assert Seen(ptr, k + 2) == Seen(ptr, k) + Count(ptr[k]) + Count(ptr[k + 1]);
  }

  method CarrySave(kind: Kind, a: bits, b: bits, c: bits) returns (h: bits, l: bits)
    requires |a| == |b| == |c|
    ensures |h| == |l| == |a|
    ensures 2 * Count(h) + Count(l) == Count(a) + Count(b) + Count(c)
  {
    CsaCounts(kind, a, b, c);
    var s := Csa(kind, a, b, c);
    h, l := s.h, s.l;
  }

  /** The carry-save accumulators. */
  datatype Accumulators = Accumulators(ones: bits, twos: bits, fours: bits, eights: bits)

  predicate Sized(kind: Kind, acc: Accumulators) {
    |acc.ones| == |acc.twos| == |acc.fours| == |acc.eights| == Width(kind)
  }

  /** The bits that the accumulators stand for. */
  function Weight(acc: Accumulators): nat {
    8 * Count(acc.eights) + 4 * Count(acc.fours) + 2 * Count(acc.twos) + Count(acc.ones)
  }

  /** One turn of the loop: sixteen vectors go into the accumulators and one vector of
      sixteens comes out. */
  method SixteenVectors(kind: Kind, ptr: seq<bits>, i: nat, before: Accumulators)
    returns (sixteens: bits, acc: Accumulators)
    requires Vectors(kind, ptr) && i + 16 <= |ptr| && Sized(kind, before)
    ensures |sixteens| == Width(kind) && Sized(kind, acc)
    ensures 16 * Count(sixteens) + Weight(acc) == Weight(before) + Seen(ptr, i + 16) - Seen(ptr, i)
  {
    hide Count, Seen;
    var eightsA, eightsB;
    eightsA, acc := EightVectors(kind, ptr, i, before);
    eightsB, acc := EightVectors(kind, ptr, i + 8, acc);
    var eights;
    sixteens, eights := CarrySave(kind, before.eights, eightsA, eightsB);
    acc := acc.(eights := eights);
  }

  method EightVectors(kind: Kind, ptr: seq<bits>, i: nat, before: Accumulators)
    returns (eights: bits, acc: Accumulators)
    requires Vectors(kind, ptr) && i + 8 <= |ptr| && Sized(kind, before)
    ensures |eights| == Width(kind) && Sized(kind, acc) && acc.eights == before.eights
    ensures 8 * Count(eights) + Weight(acc) == Weight(before) + Seen(ptr, i + 8) - Seen(ptr, i)
  {
    hide Count, Seen;
    var foursA, foursB;
    foursA, acc := FourVectors(kind, ptr, i, before);
    foursB, acc := FourVectors(kind, ptr, i + 4, acc);
    var fours;
    eights, fours := CarrySave(kind, before.fours, foursA, foursB);
    acc := acc.(fours := fours);
  }

  method FourVectors(kind: Kind, ptr: seq<bits>, i: nat, before: Accumulators)
    returns (fours: bits, acc: Accumulators)
    requires Vectors(kind, ptr) && i + 4 <= |ptr| && Sized(kind, before)
    ensures |fours| == Width(kind) && Sized(kind, acc)
    ensures acc.fours == before.fours && acc.eights == before.eights
    ensures 4 * Count(fours) + Weight(acc) == Weight(before) + Seen(ptr, i + 4) - Seen(ptr, i)
  {
    SeenFour(ptr, i);
    hide Count, Seen;
    var twosA, twosB, ones, twos;
    twosA, ones := CarrySave(kind, before.ones, ptr[i], ptr[i + 1]);
    twosB, ones := CarrySave(kind, ones, ptr[i + 2], ptr[i + 3]);
    fours, twos := CarrySave(kind, before.twos, twosA, twosB);
    acc := before.(ones := ones, twos := twos);
  }

  /** Adds the bits of `v`, `factor` times, to the lane counter. */
  method Accumulate(kind: Kind, cnt: seq<nat>, v: bits, factor: nat) returns (cnt': seq<nat>, ghost carry: nat)
    requires |v| == Width(kind) && |cnt| == Width(kind) / 64 && factor in {1, 2, 4, 8}
    ensures |cnt'| == |cnt|
    ensures LaneSum(cnt') + carry * WORD == LaneSum(cnt) + factor * Count(v)
  {
    VectorCountsSum(kind, v);
    hide LaneSum, Count, VectorCounts, AddLanes, ScaleLanes;
    var counts := VectorCounts(kind, v);
    carry := 0;
    if factor != 1 {
      carry := ScaleLanesSum(counts, factor);
      counts := ScaleLanes(counts, factor);
    }
    ghost var more := AddLanesSum(cnt, counts);
    cnt' := AddLanes(cnt, counts);
    carry := carry + more;
  }

  /** The main loop. On every turn, sixteen times the counter plus the weighted
      accumulators is the number of bits seen, up to multiples of 2^64. */
  method MainLoop(kind: Kind, ptr: seq<bits>) returns (i: nat, cnt: seq<nat>, ghost carry: nat)
    requires Vectors(kind, ptr)
    ensures i <= |ptr| && |cnt| == Width(kind) / 64
    ensures LaneSum(cnt) + carry * WORD == Seen(ptr, i)
  {
    var zero := seq(Width(kind), _ => false);
    cnt := seq(Width(kind) / 64, _ => 0);
    NoneCounted(zero);
    ZeroLanes(cnt);
    hide Count, Seen, LaneSum;
    assert Seen(ptr, 0) == 0 by { SeenNone(ptr); }
    var acc := Accumulators(zero, zero, zero, zero);
    carry := 0;
    i := 0;
    var limit := |ptr| - |ptr| % 16;
    while i < limit
      invariant i <= limit && i % 16 == 0
      invariant Sized(kind, acc) && |cnt| == Width(kind) / 64
      invariant 16 * LaneSum(cnt) + Weight(acc) + carry * WORD == Seen(ptr, i)
    {
      var sixteens;
      sixteens, acc := SixteenVectors(kind, ptr, i, acc);
      ghost var more;
      cnt, more := Accumulate(kind, cnt, sixteens, 1);
      carry := carry + 16 * more;
      i := i + 16;
    }
    ghost var c0 := ScaleLanesSum(cnt, 16);
    cnt := ScaleLanes(cnt, 16);
    ghost var c1: nat, c2: nat, c3: nat, c4: nat;
    cnt, c1 := Accumulate(kind, cnt, acc.eights, 8);
    cnt, c2 := Accumulate(kind, cnt, acc.fours, 4);
    cnt, c3 := Accumulate(kind, cnt, acc.twos, 2);
    cnt, c4 := Accumulate(kind, cnt, acc.ones, 1);
    carry := carry + c0 + c1 + c2 + c3 + c4;
  }

  /** `popcnt_avx2` and `popcnt_avx512`: the bit count of all vectors, modulo 2^64. */
  method PopcntVectors(kind: Kind, ptr: seq<bits>) returns (total: nat)
    requires Vectors(kind, ptr)
    ensures total == Seen(ptr, |ptr|) % WORD
  {
    hide Count, LaneSum;
    var i, cnt;
    ghost var carry: nat;
    i, cnt, carry := MainLoop(kind, ptr);
    while i < |ptr|
      invariant i <= |ptr| && |cnt| == Width(kind) / 64
      invariant LaneSum(cnt) + carry * WORD == Seen(ptr, i)
    {
      ghost var more;
      cnt, more := Accumulate(kind, cnt, ptr[i], 1);
      carry := carry + more;
      i := i + 1;
    }
    total := SumLanes(cnt);
    Wrapped(LaneSum(cnt), carry);
  }

  /** The final additions of 64-bit lanes. */
  method SumLanes(cnt: seq<nat>) returns (total: nat)
    ensures total == LaneSum(cnt) % WORD
  {
    total := 0;
    var j := |cnt|;
    assert cnt[j..] == [];
    while j > 0
      invariant 0 <= j <= |cnt|
      invariant total == LaneSum(cnt[j..]) % WORD
    {
      j := j - 1;
      assert cnt[j..][1..] == cnt[j + 1..];
      AddMod(cnt[j], LaneSum(cnt[j + 1..]));
      total := (cnt[j] + total) % WORD;
    }
    assert cnt[0..] == cnt;
  }

  lemma AddMod(a: nat, b: nat)
    ensures (a + b % WORD) % WORD == (a + b) % WORD
  {
    var q := b / WORD;
    assert a + b == (a + b % WORD) + q * WORD;
    Wrapped(a + b % WORD, q);
  }

  lemma Wrapped(x: nat, carry: nat)
    ensures x % WORD == (x + carry * WORD) % WORD
  {
  }

  lemma {:induction false} ZeroLanes(x: seq<nat>)
    requires forall i | 0 <= i < |x| :: x[i] == 0
    ensures LaneSum(x) == 0
  {
    if x != [] {
      ZeroLanes(x[1..]);
    }
  }

  lemma SeenNone(ptr: seq<bits>)
    ensures Seen(ptr, 0) == 0
  {
  }
}

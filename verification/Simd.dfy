/**
 The vector building blocks of the library: carry-save adders and per-vector
 popcounts for AVX2 (`CSA256`, `popcnt256`) and AVX-512 (`CSA512`, `popcnt512`).
 A vector is its bits, least significant first; 64-bit lanes are numbers.
 */
module Simd {
  import opened BitCount
  import opened Swar

  datatype Kind = Avx2 | Avx512

  function Width(kind: Kind): nat {
    match kind
    case Avx2 => 256
    case Avx512 => 512
  }

  // ----- carry-save adders -----

  datatype Sum = Sum(h: bits, l: bits)

  function Bitwise(a: bits, b: bits, c: bits, f: (bool, bool, bool) -> bool): (r: bits)
    requires |a| == |b| == |c|
    ensures |r| == |a|
    ensures forall i | 0 <= i < |r| :: r[i] == f(a[i], b[i], c[i])
  {
    seq(|a|, i requires 0 <= i < |a| => f(a[i], b[i], c[i]))
  }

  /** `CSA256`: two exclusive ors, two ands and an or. */
  function Csa256(a: bits, b: bits, c: bits): (s: Sum)
    requires |a| == |b| == |c|
    ensures |s.h| == |s.l| == |a|
  {
    var u := Bitwise(a, b, c, (x, y, _) => x != y);
    var ab := Bitwise(a, b, c, (x, y, _) => x && y);
    var uc := Bitwise(u, c, c, (x, y, _) => x && y);
    Sum(Bitwise(ab, uc, uc, (x, y, _) => x || y), Bitwise(u, c, c, (x, y, _) => x != y))
  }

  /** One bit of `_mm512_ternarylogic_epi32`: the operands select a bit of `imm`. */
  function Ternary(imm: nat, x: bool, y: bool, z: bool): bool {
    var index := (if x then 4 else 0) + (if y then 2 else 0) + (if z then 1 else 0);
    imm / Pow2(index) % 2 == 1
  }

  /** `CSA512`: two three-operand truth tables. */
  function Csa512(a: bits, b: bits, c: bits): (s: Sum)
    requires |a| == |b| == |c|
    ensures |s.h| == |s.l| == |a|
  {
    Sum(Bitwise(c, b, a, (x, y, z) => Ternary(0xE8, x, y, z)),
        Bitwise(c, b, a, (x, y, z) => Ternary(0x96, x, y, z)))
  }

  function Csa(kind: Kind, a: bits, b: bits, c: bits): (s: Sum)
    requires |a| == |b| == |c|
    ensures |s.h| == |s.l| == |a|
  {
    match kind
    case Avx2 => Csa256(a, b, c)
    case Avx512 => Csa512(a, b, c)
  }

  /** Every bit position adds up: carry and sum are those of a full adder. */
  predicate FullAdder(a: bits, b: bits, c: bits, s: Sum) {
    && |a| == |b| == |c| == |s.h| == |s.l|
    && (forall i | 0 <= i < |a| :: s.h[i] == ((a[i] && b[i]) || (a[i] && c[i]) || (b[i] && c[i])))
    && (forall i | 0 <= i < |a| :: s.l[i] == ((a[i] != b[i]) != c[i]))
  }

  lemma {:induction false} FullAdderCounts(a: bits, b: bits, c: bits, s: Sum)
    requires FullAdder(a, b, c, s)
    ensures 2 * Count(s.h) + Count(s.l) == Count(a) + Count(b) + Count(c)
    decreases |a|
  {
    if a != [] {
      FullAdderCounts(a[1..], b[1..], c[1..], Sum(s.h[1..], s.l[1..]));
    }
  }

  lemma TernaryTables(x: bool, y: bool, z: bool)
    ensures Ternary(0xE8, x, y, z) == ((z && y) || (z && x) || (y && x))
    ensures Ternary(0x96, x, y, z) == ((z != y) != x)
  {
    Powers();
    hide Pow2;
    assert Ternary(0xE8, x, y, z) ==
           (0xE8 / Pow2((if x then 4 else 0) + (if y then 2 else 0) + (if z then 1 else 0)) % 2 == 1);
  }

  lemma Powers()
    ensures Pow2(0) == 1 && Pow2(1) == 2 && Pow2(2) == 4 && Pow2(3) == 8
    ensures Pow2(4) == 16 && Pow2(5) == 32 && Pow2(6) == 64 && Pow2(7) == 128 && Pow2(8) == 256
  {
  }

  /** Both adders conserve the number of bits: a carry stands for two. */
  lemma CsaCounts(kind: Kind, a: bits, b: bits, c: bits)
    requires |a| == |b| == |c|
    ensures 2 * Count(Csa(kind, a, b, c).h) + Count(Csa(kind, a, b, c).l) == Count(a) + Count(b) + Count(c)
  {
    hide Count, Ternary;
    forall x, y, z
      ensures Ternary(0xE8, x, y, z) == ((z && y) || (z && x) || (y && x)) && Ternary(0x96, x, y, z) == ((z != y) != x)
    {
      TernaryTables(x, y, z);
    }
    FullAdderCounts(a, b, c, Csa(kind, a, b, c));
  }

  // ----- lanes -----

  function LaneSum(lanes: seq<nat>): nat {
    if lanes == [] then 0 else lanes[0] + LaneSum(lanes[1..])
  }

  /** `_mm256_add_epi64` and `_mm512_add_epi64`. */
  function AddLanes(x: seq<nat>, y: seq<nat>): (r: seq<nat>)
    requires |x| == |y|
    ensures |r| == |x|
  {
    if x == [] then [] else [(x[0] + y[0]) % WORD] + AddLanes(x[1..], y[1..])
  }

  /** `_mm256_slli_epi64` and `_mm512_slli_epi64`, the factor being a power of two. */
  function ScaleLanes(x: seq<nat>, factor: nat): (r: seq<nat>)
    ensures |r| == |x|
  {
    if x == [] then [] else [x[0] * factor % WORD] + ScaleLanes(x[1..], factor)
  }

  lemma {:induction false} AddLanesSum(x: seq<nat>, y: seq<nat>) returns (carry: nat)
    requires |x| == |y|
    ensures LaneSum(AddLanes(x, y)) + carry * WORD == LaneSum(x) + LaneSum(y)
  {
    if x == [] {
      carry := 0;
    } else {
      var rest := AddLanesSum(x[1..], y[1..]);
      carry := rest + (x[0] + y[0]) / WORD;
    }
  }

  lemma {:induction false} ScaleLanesSum(x: seq<nat>, factor: nat) returns (carry: nat)
    requires factor in {2, 4, 8, 16}
    ensures LaneSum(ScaleLanes(x, factor)) + carry * WORD == LaneSum(x) * factor
  {
    if x == [] {
      carry := 0;
    } else {
      var rest := ScaleLanesSum(x[1..], factor);
      carry := rest + x[0] * factor / WORD;
      assert LaneSum(x) * factor == x[0] * factor + LaneSum(x[1..]) * factor;
    }
  }

  // ----- popcnt256 -----

  const LOOKUP1: seq<nat> := [4, 5, 5, 6, 5, 6, 6, 7, 5, 6, 6, 7, 6, 7, 7, 8]
  const LOOKUP2: seq<nat> := [4, 3, 3, 2, 3, 2, 2, 1, 3, 2, 2, 1, 2, 1, 1, 0]

  /** `_mm256_and_si256(v, low_mask)`. */
  function LowNibbles(v: bits): (r: bits)
    ensures |r| == |v|
    ensures forall i | 0 <= i < |v| :: r[i] == (i % 8 < 4 && v[i])
  {
    seq(|v|, i requires 0 <= i < |v| => i % 8 < 4 && v[i])
  }

  /** `_mm256_srli_epi16(v, n)`: a shift inside each group of sixteen bits. */
  function ShiftRight16(v: bits, n: nat): (r: bits)
    requires |v| % 16 == 0
    ensures |r| == |v|
    ensures forall i | 0 <= i < |v| && i % 16 + n < 16 :: r[i] == v[i + n]
    ensures forall i | 0 <= i < |v| && i % 16 + n >= 16 :: !r[i]
  {
    seq(|v|, i requires 0 <= i < |v| => i % 16 + n < 16 && v[i + n])
  }

  function AbsDiff(x: nat, y: nat): nat {
    if x < y then y - x else x - y
  }

  /** The byte of `_mm256_shuffle_epi8` indexed by the byte at `from`. */
  function Shuffle(table: seq<nat>, v: bits, from: nat): nat
    requires |table| == 16 && from + 8 <= |v|
  {
    var index := ValueOf(v[from..from + 8]);
    if index < 16 then table[index] else 0
  }

  /** Sum of absolute differences over the `n` bytes from bit `from` on. */
  function Sad(lo: bits, hi: bits, from: nat, n: nat): nat
    requires |lo| == |hi| && from + 8 * n <= |lo|
    decreases n
  {
    if n == 0 then 0
    else AbsDiff(Shuffle(LOOKUP1, lo, from), Shuffle(LOOKUP2, hi, from)) + Sad(lo, hi, from + 8, n - 1)
  }

  function Popcnt256(v: bits): (lanes: seq<nat>)
    requires |v| == 256
    ensures |lanes| == 4
  {
    var lo := LowNibbles(v);
    var hi := LowNibbles(ShiftRight16(v, 4));
    [Sad(lo, hi, 0, 8), Sad(lo, hi, 64, 8), Sad(lo, hi, 128, 8), Sad(lo, hi, 192, 8)]
  }

  const ZEROS: bits := [false, false, false, false]

  lemma NibbleTables(x: bits)
    requires |x| == 4
    ensures var n := ValueOf(x + ZEROS);
            n < 16 && LOOKUP1[n] == 4 + Count(x) && LOOKUP2[n] == 4 - Count(x)
  {
    hide ValueOf, Count;
    var b0, b1, b2, b3 := x[0], x[1], x[2], x[3];
    assert x == [b0, b1, b2, b3];
    NibbleValue(b0, b1, b2, b3);
    NibbleCount(b0, b1, b2, b3);
    TableEntries(b0, b1, b2, b3);
  }

  lemma TableEntries(b0: bool, b1: bool, b2: bool, b3: bool)
    ensures var n := (if b0 then 1 else 0) + (if b1 then 2 else 0) + (if b2 then 4 else 0) + (if b3 then 8 else 0);
            var c := (if b0 then 1 else 0) + (if b1 then 1 else 0) + (if b2 then 1 else 0) + (if b3 then 1 else 0);
            LOOKUP1[n] == 4 + c && LOOKUP2[n] == 4 - c
  {
  }

  lemma Cons(b: bool, rest: bits)
    ensures ValueOf([b] + rest) == (if b then 1 else 0) + 2 * ValueOf(rest)
    ensures Count([b] + rest) == (if b then 1 else 0) + Count(rest)
  {
    assert ([b] + rest)[1..] == rest;
  }

  lemma NibbleValue(b0: bool, b1: bool, b2: bool, b3: bool)
    ensures ValueOf([b0, b1, b2, b3] + ZEROS)
         == (if b0 then 1 else 0) + (if b1 then 2 else 0) + (if b2 then 4 else 0) + (if b3 then 8 else 0)
  {
    assert ValueOf(ZEROS) == 0;
    hide ValueOf;
    Cons(b3, ZEROS);
    Cons(b2, [b3] + ZEROS);
    Cons(b1, [b2] + ([b3] + ZEROS));
    Cons(b0, [b1] + ([b2] + ([b3] + ZEROS)));
    assert [b0] + ([b1] + ([b2] + ([b3] + ZEROS))) == [b0, b1, b2, b3] + ZEROS;
  }

  lemma NibbleCount(b0: bool, b1: bool, b2: bool, b3: bool)
    ensures Count([b0, b1, b2, b3])
         == (if b0 then 1 else 0) + (if b1 then 1 else 0) + (if b2 then 1 else 0) + (if b3 then 1 else 0)
  {
    assert Count([]) == 0;
    hide Count;
    Cons(b3, []);
    Cons(b2, [b3]);
    Cons(b1, [b2, b3]);
    Cons(b0, [b1, b2, b3]);
    assert [b3] + [] == [b3] && [b2] + [b3] == [b2, b3];
    assert [b1] + [b2, b3] == [b1, b2, b3] && [b0] + [b1, b2, b3] == [b0, b1, b2, b3];
  }

  lemma LowByte(v: bits, from: nat)
    requires from % 8 == 0 && from + 8 <= |v|
    ensures LowNibbles(v)[from..from + 8] == v[from..from + 4] + ZEROS
  {
  }

  lemma HighByte(v: bits, from: nat)
    requires |v| % 16 == 0 && from % 8 == 0 && from + 8 <= |v|
    ensures LowNibbles(ShiftRight16(v, 4))[from..from + 8] == v[from + 4..from + 8] + ZEROS
  {
    var w := ShiftRight16(v, 4);
    LowByte(w, from);
    assert w[from..from + 4] == v[from + 4..from + 8];
  }

  /** The two table look-ups for a byte differ by its number of bits. */
  lemma ByteSad(v: bits, from: nat)
    requires |v| % 16 == 0 && from % 8 == 0 && from + 8 <= |v|
    ensures var lo, hi := LowNibbles(v), LowNibbles(ShiftRight16(v, 4));
            AbsDiff(Shuffle(LOOKUP1, lo, from), Shuffle(LOOKUP2, hi, from)) == Count(v[from..from + 8])
  {
    hide ValueOf, Count, LowNibbles, ShiftRight16;
    var x, y := v[from..from + 4], v[from + 4..from + 8];
    LowByte(v, from);
    HighByte(v, from);
    NibbleTables(x);
    NibbleTables(y);
    assert v[from..from + 8] == x + y;
    CountConcat(x, y);
  }

  lemma {:induction false} SadCounts(v: bits, from: nat, n: nat)
    requires |v| % 16 == 0 && from % 8 == 0 && from + 8 * n <= |v|
    ensures Sad(LowNibbles(v), LowNibbles(ShiftRight16(v, 4)), from, n) == Count(v[from..from + 8 * n])
    decreases n
  {
    hide LowNibbles, ShiftRight16, Shuffle;
    if n == 0 {
      assert v[from..from] == [];
    } else {
      ByteSad(v, from);
      SadCounts(v, from + 8, n - 1);
      var x, y := v[from..from + 8], v[from + 8..from + 8 + 8 * (n - 1)];
      assert v[from..from + 8 * n] == x + y;
      CountConcat(x, y);
    }
  }

  /** `popcnt256`: the lanes together count the bits of the vector. */
  lemma Popcnt256Counts(v: bits)
    requires |v| == 256
    ensures LaneSum(Popcnt256(v)) == Count(v)
  {
    hide LowNibbles, ShiftRight16, Sad, Count;
    SadCounts(v, 0, 8);
    SadCounts(v, 64, 8);
    SadCounts(v, 128, 8);
    SadCounts(v, 192, 8);
    FourLanes(Count(v[0..64]), Count(v[64..128]), Count(v[128..192]), Count(v[192..256]));
    assert v == v[0..64] + (v[64..128] + (v[128..192] + v[192..256]));
    CountConcat(v[128..192], v[192..256]);
    CountConcat(v[64..128], v[128..192] + v[192..256]);
    CountConcat(v[0..64], v[64..128] + (v[128..192] + v[192..256]));
  }

  lemma FourLanes(a: nat, b: nat, c: nat, d: nat)
    ensures LaneSum([a, b, c, d]) == a + b + c + d
  {
    assert [d][1..] == [] && LaneSum([d]) == d;
    assert [c, d][1..] == [d] && LaneSum([c, d]) == c + d;
    assert [b, c, d][1..] == [c, d] && LaneSum([b, c, d]) == b + c + d;
    assert [a, b, c, d][1..] == [b, c, d];
  }
}
